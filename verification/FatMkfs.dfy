// The whole drive after f_mkfs, and the volume a mount then finds on it
// (dfs/ff.c: f_mkfs, check_fs, chk_mounted).
module FatMkfs {
  import opened Words
  import opened FatVolume
  import opened FatChain
  import opened FatAlloc
  import opened FatFormat
  import opened FatMount

  const FSI_LEAD_SIG: nat := 0
  const FSI_STRUC_SIG: nat := 484
  const FSI_FREE_COUNT: nat := 488
  const FSI_NXT_FREE: nat := 492
  const LEAD_SIG: nat := 0x4161_5252
  const STRUC_SIG: nat := 0x6141_7272

  // ----- Finding the volume -----

  datatype RecordKind = FatRecord | OtherRecord | NotRecord

  /** check_fs, on a sector it could read */
  function CheckFs(s: Sector): RecordKind
    requires |s| >= 512
  {
    if LdWord(s, BS_55AA) != SIGNATURE then NotRecord
    else if Tag(s, BS_FIL_SYS_TYPE) == FAT_STRING || Tag(s, BS_FIL_SYS_TYPE32) == FAT_STRING then FatRecord
    else OtherRecord
  }

  predicate IsDrive(d: seq<Sector>, ss: nat) {
    SectorSizeOk(ss) && |d| > 0 && forall s | 0 <= s < |d| :: |d[s]| == ss
  }

  /** Sector 0 if it is a FAT boot record, else the first partition. */
  function Locate(d: seq<Sector>, ss: nat): Mounting
    requires IsDrive(d, ss)
  {
    match CheckFs(d[0])
    case FatRecord => Analyse(FieldsOf(d[0]), ss, 0)
    case NotRecord => NoFilesystem
    case OtherRecord =>
      if d[0][MBR_TABLE + 4] == 0 then NoFilesystem else
      var bsect := LdDword(d[0], MBR_TABLE + 8);
      if bsect >= |d| then DiskErr
      else if CheckFs(d[bsect]) == FatRecord then Analyse(FieldsOf(d[bsect]), ss, bsect)
      else NoFilesystem
  }

  /** The allocation hints a mount starts with: FSInfo's when its signatures are right. */
  function Hints(d: seq<Sector>, m: Mounting): (h: (dword, dword))
    requires m.Mounted? && (forall s | 0 <= s < |d| :: |d[s]| >= 512)
  {
    if m.g.fatType == Fat32 && m.fsiSector < |d| && IsFsInfo(d[m.fsiSector])
    then (LdDword(d[m.fsiSector], FSI_NXT_FREE), LdDword(d[m.fsiSector], FSI_FREE_COUNT))
    else (0, UNKNOWN_COUNT)
  }

  predicate IsFsInfo(s: Sector) {
    && |s| >= 512
    && LdWord(s, BS_55AA) == SIGNATURE
    && LdDword(s, FSI_LEAD_SIG) == LEAD_SIG
    && LdDword(s, FSI_STRUC_SIG) == STRUC_SIG
  }

  // ----- What f_mkfs leaves on the drive -----

  /** A partition table whose first partition starts at sector 63. */
  ghost predicate IsMbr(s: Sector) {
    && |s| >= 512
    && CheckFs(s) == OtherRecord
    && s[MBR_TABLE + 4] != 0
    && LdDword(s, MBR_TABLE + 8) == FDISK_START
  }

  /** The reserved entries at the start of the FAT. */
  function FatHead(fatType: FatType, md: byte): (h: seq<byte>)
    ensures 4 <= |h| <= 12
  {
    match fatType
    case Fat12 => [md, 0xFF, 0xFF, 0]
    case Fat16 => [md, 0xFF, 0xFF, 0xFF]
    case Fat32 => [md, 0xFF, 0xFF, 0xFF, 0xFF, 0xFF, 0xFF, 0xFF, 0xFF, 0xFF, 0xFF, 0x0F]
  }

  /** A sector that starts with h and is zero after it. */
  ghost predicate HeadThenZero(s: Sector, h: seq<byte>) {
    |h| <= |s| && forall i | 0 <= i < |s| :: s[i] == if i < |h| then h[i] else 0
  }

  /** The sectors zeroed for the root directory. */
  function RootSpan(l: Layout): nat {
    if l.fatType == Fat32 then l.au else l.nDir
  }

  ghost predicate Zeroed(d: seq<Sector>, a: nat, b: nat) {
    b <= |d| && forall s | a <= s < b :: HeadThenZero(d[s], [])
  }

  ghost predicate Formatted(d: seq<Sector>, l: Layout, md: byte)
    requires l.au > 0 && l.Fits()
  {
    && IsDrive(d, l.ss) && |d| == l.bVol + l.nVol
    && (l.bVol == 0 || (l.bVol == FDISK_START && IsMbr(d[0])))
    && IsVbr(d[l.bVol], l)
    && HeadThenZero(d[l.bVol + l.nRsv], FatHead(l.fatType, md))
    && Zeroed(d, l.bVol + l.nRsv + 1, l.bVol + l.nRsv + l.nFat + RootSpan(l))
    && (l.fatType == Fat32 ==>
          && IsInfoOf(d[l.bVol + 1], l.Clusters())
          && l.bVol + 7 < |d| && d[l.bVol + 6] == d[l.bVol] && d[l.bVol + 7] == d[l.bVol + 1])
  }

  /** The sectors f_mkfs writes for layout l. */
  ghost predicate Reserves(l: Layout, s: int) {
    || s == l.bVol || (s == 0 && l.bVol != 0)
    || (l.fatType == Fat32 && s in {l.bVol + 1, l.bVol + 6, l.bVol + 7})
    || l.bVol + l.nRsv <= s < l.bVol + l.nRsv + l.nFat + RootSpan(l)
  }

  /** Every other sector is as it was. */
  ghost predicate Untouched(d: seq<Sector>, e: seq<Sector>, l: Layout) {
    |d| == |e| && forall s | 0 <= s < |d| && !Reserves(l, s) :: e[s] == d[s]
  }

  ghost predicate IsInfoOf(s: Sector, n: nat) {
    IsFsInfo(s) && LdDword(s, FSI_FREE_COUNT) == n - 1 && LdDword(s, FSI_NXT_FREE) == 2
  }

  /** A formatted drive mounts as the planned volume. */
  lemma FormattedMounts(d: seq<Sector>, l: Layout, md: byte)
    requires Sound(l) && l.Fits() && Formatted(d, l, md)
    ensures IsDrive(d, l.ss)
    ensures Locate(d, l.ss) == Mounted(GeometryOf(l), if l.fatType == Fat32 then 0 else N_ROOTDIR, RootBase(l),
                                       if l.fatType == Fat32 then l.bVol + 1 else 0)
    ensures l.au > 0 && GeometryOf(l).Valid() && IsDisk(GeometryOf(l), d)
  {
    hide Analyse, FieldsOf, Geometry.Valid, Tag, LdWord, LdDword, Layout.Clusters, HeadThenZero, Geometry.SectorCount;
    FormatMounts(d[l.bVol], l);
    assert CheckFs(d[l.bVol]) == FatRecord;
  }

  // ----- The fresh FAT -----

  /** The entries of a FAT that f_mkfs just wrote: the media byte below ones, ones, and nothing but the root in use. */
  ghost predicate FreshTable(t: seq<nat>, fatType: FatType, md: byte) {
    && |t| >= 3
    && t[0] == Ones(fatType) - 0xFF + md && t[1] == Ones(fatType)
    && (fatType == Fat32 ==> t[2] == END_MARK)
    && forall c | (if fatType == Fat32 then 3 else 2) <= c < |t| :: t[c] == 0
  }

  /** An entry with all its bits set. */
  function Ones(fatType: FatType): nat {
    match fatType
    case Fat12 => 0xFFF
    case Fat16 => 0xFFFF
    case Fat32 => 0x0FFF_FFFF
  }

  lemma FreshByte(d: seq<Sector>, g: Geometry, h: seq<byte>, i: nat)
    requires g.Valid() && IsDisk(g, d) && i < g.FatBytes() && |h| <= 12
    requires HeadThenZero(d[g.fatbase], h) && Zeroed(d, g.fatbase + 1, g.fatbase + g.fsize)
    ensures FatByte(g, d, i) == if i < |h| then h[i] else 0
  {
    hide Geometry.FatBytes;
    FatByteInRange(g, i);
    assert i == i / g.ss * g.ss + i % g.ss;
    if i / g.ss > 0 { MulGap(i / g.ss, g.ss); }
  }

  ghost predicate FreshArea(d: seq<Sector>, g: Geometry, md: byte)
    requires g.Valid() && IsDisk(g, d)
  {
    && g.fatbase < |d|
    && HeadThenZero(d[g.fatbase], FatHead(g.fatType, md))
    && Zeroed(d, g.fatbase + 1, g.fatbase + g.fsize)
  }

  lemma FreshAreaByte(d: seq<Sector>, g: Geometry, md: byte, i: nat)
    requires g.Valid() && IsDisk(g, d) && FreshArea(d, g, md) && i < g.FatBytes()
    ensures FatByte(g, d, i) == if i < |FatHead(g.fatType, md)| then FatHead(g.fatType, md)[i] else 0
  {
    hide FatHead;
    FreshByte(d, g, FatHead(g.fatType, md), i);
  }

  lemma Fresh12(d: seq<Sector>, g: Geometry, md: byte, c: nat)
    requires g.Valid() && IsDisk(g, d) && FreshArea(d, g, md) && c < g.nFatent && g.fatType == Fat12
    ensures Entry(g, d, c) == if c == 0 then Ones(g.fatType) - 0xFF + md else if c == 1 then Ones(g.fatType) else 0
  {
    hide Geometry.Valid, Geometry.FatBytes, FatByte, IsDisk, FreshArea, Pair;
    EntryFits(g, c);
    FreshAreaByte(d, g, md, c + c / 2);
    FreshAreaByte(d, g, md, c + c / 2 + 1);
    Pair12(FatByte(g, d, c + c / 2), FatByte(g, d, c + c / 2 + 1));
  }

  lemma Fresh16(d: seq<Sector>, g: Geometry, md: byte, c: nat)
    requires g.Valid() && IsDisk(g, d) && FreshArea(d, g, md) && c < g.nFatent && g.fatType == Fat16
    ensures Entry(g, d, c) == if c == 0 then Ones(g.fatType) - 0xFF + md else if c == 1 then Ones(g.fatType) else 0
  {
    hide Geometry.Valid, Geometry.FatBytes, FatByte, IsDisk, FreshArea;
    EntryFits(g, c);
    FreshAreaByte(d, g, md, c * 2);
    FreshAreaByte(d, g, md, c * 2 + 1);
  }

  lemma Fresh32(d: seq<Sector>, g: Geometry, md: byte, c: nat)
    requires g.Valid() && IsDisk(g, d) && FreshArea(d, g, md) && c < g.nFatent && g.fatType == Fat32
    ensures Entry(g, d, c) == if c == 0 then Ones(Fat32) - 0xFF + md else if c <= 2 then Ones(Fat32) else 0
  {
    hide Geometry.Valid, Geometry.FatBytes, FatByte, IsDisk, FreshArea, Quad;
    EntryFits(g, c);
    FreshAreaByte(d, g, md, c * 4);
    FreshAreaByte(d, g, md, c * 4 + 1);
    FreshAreaByte(d, g, md, c * 4 + 2);
    FreshAreaByte(d, g, md, c * 4 + 3);
    QuadLow28(FatByte(g, d, c * 4), FatByte(g, d, c * 4 + 1), FatByte(g, d, c * 4 + 2), FatByte(g, d, c * 4 + 3));
    FirstQuads(md);
  }

  lemma FirstQuads(md: byte)
    ensures Quad(md, 0xFF, 0xFF, 0xF) == END_MARK - 0xFF + md
    ensures Quad(0xFF, 0xFF, 0xFF, 0xF) == END_MARK && Quad(0, 0, 0, 0) == 0
  {
  }

  lemma FreshTableIs(d: seq<Sector>, g: Geometry, md: byte)
    requires g.Valid() && IsDisk(g, d) && FreshArea(d, g, md)
    ensures FreshTable(Table(g, d), g.fatType, md)
  {
    hide FreshArea, Entry, IsDisk;
    assert |Table(g, d)| >= 3;
    forall c | 0 <= c < g.nFatent
      ensures c == 0 ==> Entry(g, d, c) == Ones(g.fatType) - 0xFF + md
      ensures c == 1 ==> Entry(g, d, c) == Ones(g.fatType)
      ensures c == 2 && g.fatType == Fat32 ==> Entry(g, d, c) == END_MARK
      ensures c >= (if g.fatType == Fat32 then 3 else 2) ==> Entry(g, d, c) == 0
    {
      match g.fatType
      case Fat12 => Fresh12(d, g, md, c);
      case Fat16 => Fresh16(d, g, md, c);
      case Fat32 => Fresh32(d, g, md, c);
    }
  }

  /** A fresh table has no chains but FAT32's root, and everything else in it is free. */
  lemma FreshIsWellFormed(t: Fat, fatType: FatType, md: byte)
    requires FreshTable(t, fatType, md) && |t| <= END_MARK
    ensures WellFormed(t)
    ensures FreeCount(t) == |t| - (if fatType == Fat32 then 3 else 2)
  {
    FreshCount(t, fatType, md, |t|);
    if fatType == Fat32 {
      assert IsChainFrom(t, 2, [2]);
    }
  }

  lemma {:induction false} FreshCount(t: Fat, fatType: FatType, md: byte, n: nat)
    requires FreshTable(t, fatType, md) && 2 <= n <= |t|
    ensures FreeUpTo(t, n) == if fatType == Fat32 && n > 2 then n - 3 else n - 2
  {
    if n > 2 { FreshCount(t, fatType, md, n - 1); }
  }

  /** Where dir_sdi starts in the root directory: the first sector of its cluster, or dirbase itself. */
  ghost function RootStart(m: Mounting): nat
    requires m.Mounted? && m.g.nFatent >= 2 && m.dirbase < DWORD_SPAN
  {
    if m.g.fatType == Fat32 then m.g.ClusterSector(m.dirbase) else m.dirbase
  }

  /** The end of the root directory: its cluster's, or the start of the data area. */
  ghost function RootEnd(m: Mounting): nat
    requires m.Mounted? && m.g.nFatent >= 2 && m.dirbase < DWORD_SPAN
  {
    if m.g.fatType == Fat32 then RootStart(m) + m.g.csize else m.g.database
  }

  /**
   * The volume mounted from a formatted drive is ready for use: its chain graph is well formed, its
   * free count is right or unknown, and the directory it takes as root is all zero.
   */
  lemma FormatThenMount(d: seq<Sector>, l: Layout, md: byte)
    requires Sound(l) && l.Fits() && Formatted(d, l, md)
    ensures Locate(d, l.ss).Mounted?
    ensures var m := Locate(d, l.ss);
            && m.g == GeometryOf(l) && m.g.Valid() && IsDisk(m.g, d)
            && FreshTable(Table(m.g, d), m.g.fatType, md) && WellFormed(Table(m.g, d))
            && CountTruthful(Table(m.g, d), Hints(d, m).1)
            && (m.g.fatType == Fat32 ==> Hints(d, m) == (2, l.Clusters() - 1))
            && m.dirbase < DWORD_SPAN && RootStart(m) < RootEnd(m) && Zeroed(d, RootStart(m), RootEnd(m))
  {
    hide *;
    FormattedMounts(d, l, md);
    var g := GeometryOf(l);
    EndMarkOutside(g);
    FreshAreaOf(d, l, md);
    FreshTableIs(d, g, md);
    FreshIsWellFormed(Table(g, d), g.fatType, md);
    HintsAre(d, l, md);
    Truthful(Table(g, d), Hints(d, Locate(d, l.ss)).1);
    RootIsZero(d, l, md);
  }

  lemma FreshAreaOf(d: seq<Sector>, l: Layout, md: byte)
    requires Sound(l) && l.Fits() && Formatted(d, l, md)
    requires GeometryOf(l).Valid() && IsDisk(GeometryOf(l), d)
    ensures FreshArea(d, GeometryOf(l), md) && GeometryOf(l).fatType == l.fatType
    ensures GeometryOf(l).nFatent == l.Clusters() + 2 && (forall s | 0 <= s < |d| :: |d[s]| >= 512)
  {
    hide Geometry.Valid, HeadThenZero, FatHead, IsVbr, IsMbr, IsDisk, Layout.Clusters, PlannedFatBytes, UnitsIn,
         SubType;
    ZeroedPart(d, l.bVol + l.nRsv + 1, l.bVol + l.nRsv + l.nFat + RootSpan(l), l.bVol + l.nRsv + 1,
        l.bVol + l.nRsv + l.nFat);
  }

  lemma FatNotEmpty(l: Layout)
    requires Sound(l)
    ensures l.nFat > 0
  {
  }

  lemma Truthful(t: Fat, count: nat)
    requires count == FreeCount(t) || count == UNKNOWN_COUNT
    ensures CountTruthful(t, count)
  {
  }

  lemma ZeroedPart(d: seq<Sector>, a: nat, b: nat, x: nat, y: nat)
    requires Zeroed(d, a, b) && a <= x && y <= b
    ensures Zeroed(d, x, y)
  {
  }

  lemma HintsAre(d: seq<Sector>, l: Layout, md: byte)
    requires Sound(l) && l.Fits() && Formatted(d, l, md)
    requires Locate(d, l.ss).Mounted? && Locate(d, l.ss).g == GeometryOf(l) && GeometryOf(l).Valid()
    requires Locate(d, l.ss).fsiSector == (if l.fatType == Fat32 then l.bVol + 1 else 0)
    ensures forall s | 0 <= s < |d| :: |d[s]| >= 512
    ensures l.Clusters() >= 1
    ensures Hints(d, Locate(d, l.ss)) == if l.fatType == Fat32 then (2, l.Clusters() - 1) else (0, UNKNOWN_COUNT)
  {
    hide Geometry.Valid, HeadThenZero, FatHead, IsVbr, IsMbr, Layout.Clusters, PlannedFatBytes, UnitsIn, SubType,
         Locate, IsFsInfo, Zeroed, LdDword;
    EndMarkOutside(GeometryOf(l));
  }

  lemma RootIsZero(d: seq<Sector>, l: Layout, md: byte)
    requires Sound(l) && l.Fits() && Formatted(d, l, md)
    requires GeometryOf(l).Valid() && IsDisk(GeometryOf(l), d)
    requires Locate(d, l.ss).Mounted? && Locate(d, l.ss).g == GeometryOf(l) && Locate(d, l.ss).dirbase == RootBase(l)
    ensures var m := Locate(d, l.ss);
            && m.g.nFatent >= 2 && m.dirbase < DWORD_SPAN
            && RootStart(m) < RootEnd(m) && Zeroed(d, RootStart(m), RootEnd(m))
  {
    hide Geometry.Valid, HeadThenZero, FatHead, IsVbr, IsMbr, Layout.Clusters, PlannedFatBytes, UnitsIn, SubType,
         Locate, IsFsInfo, Zeroed, LdDword, RootDirSectors, Geometry.ClusterSector, IsDisk;
    var m := Locate(d, l.ss);
    EndMarkOutside(m.g);
    RootArea(l.ss);
    ClusterSectorRange(m.g, m.dirbase);
    FatNotEmpty(l);
    ZeroedPart(d, l.bVol + l.nRsv + 1, l.bVol + l.nRsv + l.nFat + RootSpan(l), RootStart(m), RootEnd(m));
  }

  // ----- f_mkfs itself -----

  datatype FormatStatus = FormatOk | DriveError | MkfsAborted

  /** disk_write of n sectors filled from tbl, from sector from on; it fails at the end of the drive. */
  method PutCopies(d: seq<Sector>, tbl: array<byte>, from: nat, n: nat) returns (ok: bool, e: seq<Sector>)
    ensures ok == (n == 0 || from + n <= |d|)
    ensures |e| == |d|
    ensures forall s | 0 <= s < |d| :: e[s] == if from <= s < from + n then tbl[..] else d[s]
  {
    e := d;
    ok := true;
    var i := 0;
    while i < n
      invariant 0 <= i <= n && |e| == |d| && ok && (i == 0 || from + i <= |d|)
      invariant forall s | 0 <= s < |d| :: e[s] == if from <= s < from + i then tbl[..] else d[s]
    {
      if from + i >= |d| { ok := false; return; }
      e := e[from + i := tbl[..]];
      i := i + 1;
    }
  }

  method Clear(tbl: array<byte>)
    modifies tbl
    ensures forall j | 0 <= j < tbl.Length :: tbl[j] == 0
  {
    forall j | 0 <= j < tbl.Length { tbl[j] := 0; }
  }

  /** The partition's last cylinder: its low byte, and its high bits above sector 63. */
  function EndCylinder(nDisk: nat): byte {
    Byte(nDisk / 63 / 255, 0)
  }

  function EndSector(nDisk: nat): byte {
    Byte(nDisk / 63 / 255 / 4 / 64 * 64 + 63, 0)
  }

  /** Where the first partition starts and ends, in cylinders, heads and sectors. */
  method WriteChs(tbl: array<byte>, nDisk: nat)
    requires tbl.Length >= 512
    modifies tbl
    ensures forall j | 0 <= j < tbl.Length && !(MBR_TABLE <= j < MBR_TABLE + 8) :: tbl[j] == old(tbl[j])
    ensures tbl[MBR_TABLE + 4] == old(tbl[MBR_TABLE + 4])
  {
    hide EndCylinder, EndSector;
    Store(tbl, MBR_TABLE, [0x80, 0x01, 0x01, 0x00]);
    if nDisk < 63 * 255 * 1024 {
      tbl[MBR_TABLE + 7] := EndCylinder(nDisk);
      tbl[MBR_TABLE + 6] := EndSector(nDisk);
    } else {
      Store(tbl, MBR_TABLE + 6, [0xFF, 0xFF]);
    }
    tbl[MBR_TABLE + 5] := 254;
  }

  /** The partition table. */
  method WriteMbr(tbl: array<byte>, l: Layout)
    requires tbl.Length == l.ss >= 512 && l.nVol < DWORD_SPAN
    modifies tbl
    ensures IsMbr(tbl[..])
    ensures LdDword(tbl[..], 458) == l.nVol
    ensures tbl[450] == if l.fatType == Fat32 then 0x0C else if l.nVol < 0x1_0000 then 0x04 else 0x06
  {
    hide Byte, WordBytes, DwordBytes, EndCylinder, EndSector, IsMbr, At, LdWord, LdDword;
    Clear(tbl);
    var nDisk := l.bVol + l.nVol;
    WriteChs(tbl, nDisk);
    tbl[MBR_TABLE + 4] := if l.fatType == Fat32 then 0x0C else if l.nVol < 0x1_0000 then 0x04 else 0x06;
    Store(tbl, MBR_TABLE + 8, DwordBytes(63));
    StoredAt(tbl[..], MBR_TABLE + 8, DwordBytes(63));
    ghost var s: Sector := tbl[..];
    Store(tbl, MBR_TABLE + 12, DwordBytes(l.nVol));
    StoredAt(tbl[..], MBR_TABLE + 12, DwordBytes(l.nVol));
    ghost var s2: Sector := tbl[..];
    Store(tbl, BS_55AA, WordBytes(SIGNATURE));
    StoredAt(tbl[..], BS_55AA, WordBytes(SIGNATURE));
    AtFrame(s, tbl[..], MBR_TABLE + 8, DwordBytes(63));
    AtFrame(s2, tbl[..], MBR_TABLE + 12, DwordBytes(l.nVol));
    DwordAt(tbl[..], MBR_TABLE + 12, l.nVol);
    MbrFromFields(tbl[..]);
  }

  lemma MbrFromFields(s: Sector)
    requires |s| >= 512 && (forall j | 0 <= j < MBR_TABLE :: s[j] == 0) && s[MBR_TABLE + 4] != 0
    requires At(s, MBR_TABLE + 8, DwordBytes(63)) && At(s, BS_55AA, WordBytes(SIGNATURE))
    ensures IsMbr(s)
  {
    hide At, WordBytes, DwordBytes, LdWord, LdDword, Tag;
    ZeroTag(s, BS_FIL_SYS_TYPE);
    ZeroTag(s, BS_FIL_SYS_TYPE32);
    DwordAt(s, MBR_TABLE + 8, 63);
    WordAt(s, BS_55AA, SIGNATURE);
  }

  lemma ZeroTag(s: Sector, i: nat)
    requires i + 4 <= |s| && s[i] == s[i + 1] == s[i + 2] == s[i + 3] == 0
    ensures Tag(s, i) != FAT_STRING
  {
    assert LdDword(s, i) == 0;
  }

  /** The first sector of a FAT. */
  method WriteFatHead(tbl: array<byte>, fatType: FatType, md: byte)
    requires tbl.Length >= 512
    modifies tbl
    ensures HeadThenZero(tbl[..], FatHead(fatType, md))
  {
    Clear(tbl);
    if fatType != Fat32 {
      Store(tbl, 0, if fatType == Fat12 then [md, 0xFF, 0xFF, 0] else [md, 0xFF, 0xFF, 0xFF]);
    } else {
      Store(tbl, 0, [md, 0xFF, 0xFF, 0xFF]);
      Store(tbl, 4, [0xFF, 0xFF, 0xFF, 0xFF]);
      Store(tbl, 8, [0xFF, 0xFF, 0xFF, 0x0F]);
    }
  }

  /** The FSInfo sector for n clusters, one of which is the root directory. */
  method WriteInfo(tbl: array<byte>, n: nat)
    requires tbl.Length >= 512 && 0 < n < DWORD_SPAN
    modifies tbl
    ensures IsInfoOf(tbl[..], n)
  {
    hide Byte, WordBytes, DwordBytes, At, LdWord, LdDword, IsFsInfo;
    Store(tbl, FSI_LEAD_SIG, DwordBytes(LEAD_SIG));
    ghost var s0: Sector := tbl[..];
    Store(tbl, FSI_STRUC_SIG, DwordBytes(STRUC_SIG));
    ghost var s1: Sector := tbl[..];
    Store(tbl, FSI_FREE_COUNT, DwordBytes(n - 1));
    ghost var s2: Sector := tbl[..];
    Store(tbl, FSI_NXT_FREE, DwordBytes(2));
    ghost var s3: Sector := tbl[..];
    Store(tbl, BS_55AA, WordBytes(SIGNATURE));
    ghost var s: Sector := tbl[..];
    StoredAt(s0, FSI_LEAD_SIG, DwordBytes(LEAD_SIG));
    StoredAt(s1, FSI_STRUC_SIG, DwordBytes(STRUC_SIG));
    StoredAt(s2, FSI_FREE_COUNT, DwordBytes(n - 1));
    StoredAt(s3, FSI_NXT_FREE, DwordBytes(2));
    StoredAt(s, BS_55AA, WordBytes(SIGNATURE));
    AtFrame(s0, s, FSI_LEAD_SIG, DwordBytes(LEAD_SIG));
    AtFrame(s1, s, FSI_STRUC_SIG, DwordBytes(STRUC_SIG));
    AtFrame(s2, s, FSI_FREE_COUNT, DwordBytes(n - 1));
    AtFrame(s3, s, FSI_NXT_FREE, DwordBytes(2));
    InfoFromFields(s, n);
  }

  lemma InfoFromFields(s: Sector, n: nat)
    requires |s| >= 512 && 0 < n < DWORD_SPAN
    requires At(s, FSI_LEAD_SIG, DwordBytes(LEAD_SIG)) && At(s, FSI_STRUC_SIG, DwordBytes(STRUC_SIG))
    requires At(s, FSI_FREE_COUNT, DwordBytes(n - 1)) && At(s, FSI_NXT_FREE, DwordBytes(2))
    requires At(s, BS_55AA, WordBytes(SIGNATURE))
    ensures IsInfoOf(s, n)
  {
    hide At, WordBytes, DwordBytes, LdWord, LdDword;
    DwordAt(s, FSI_LEAD_SIG, LEAD_SIG);
    DwordAt(s, FSI_STRUC_SIG, STRUC_SIG);
    DwordAt(s, FSI_FREE_COUNT, n - 1);
    DwordAt(s, FSI_NXT_FREE, 2);
    WordAt(s, BS_55AA, SIGNATURE);
  }

  /** n_clst of f_mkfs is the cluster count of a layout that fits. */
  lemma FinalIsClusters(l: Layout)
    requires l.au > 0 && l.Fits() && l.nVol < DWORD_SPAN
    ensures FinalClusters(l) == l.Clusters()
    ensures 0 < l.Clusters() < DWORD_SPAN
  {
    ModSmall(l.nVol - l.SystemSectors());
    FewClusters(l);
  }

  lemma SoundNumbers(l: Layout)
    requires Sound(l)
    ensures LayoutStorable(l) && l.ss >= 512 && 0 < l.au && 0 < l.nFat && 0 < l.nVol && 0 < RootSpan(l)
            && l.nVol < DWORD_SPAN
    ensures l.nRsv >= 1 && (l.fatType == Fat32 ==> l.nRsv >= 32 && l.Fits() && l.nDir == 0)
    ensures l.fatType != Fat32 ==> RootSpan(l) == l.nDir
    ensures l.Fits() ==> l.nRsv + l.nFat + RootSpan(l) <= l.nVol
  {
    hide RootDirSectors;
    FatNotEmpty(l);
    RootArea(l.ss);
  }

  lemma ZeroSector(s: Sector)
    requires forall j | 0 <= j < |s| :: s[j] == 0
    ensures HeadThenZero(s, [])
  {
  }

  function MediaOf(l: Layout): byte {
    if l.bVol == 0 then 0xF0 else 0xF8
  }

  /** The partition table, the boot record and its backup. */
  ghost predicate BootWritten(d: seq<Sector>, l: Layout) {
    && IsDrive(d, l.ss) && |d| == l.bVol + l.nVol
    && (l.bVol == 0 || (l.bVol == FDISK_START && IsMbr(d[0])))
    && l.bVol < |d| && IsVbr(d[l.bVol], l)
  }

  /** A drive with a boot record of f_mkfs mounts if and only if the layout leaves a cluster. */
  lemma BootMounts(d: seq<Sector>, l: Layout)
    requires Sound(l) && BootWritten(d, l)
    ensures IsDrive(d, l.ss) && (Locate(d, l.ss).Mounted? <==> l.Fits())
  {
    hide Analyse, FieldsOf, Geometry.Valid, Tag, LdWord, LdDword, Layout.Clusters, GeometryOf;
    FormatMounts(d[l.bVol], l);
    assert CheckFs(d[l.bVol]) == FatRecord;
  }

  method PutBoot(d: seq<Sector>, tbl: array<byte>, l: Layout, vsn: nat) returns (e: seq<Sector>)
    requires Sound(l) && IsDrive(d, l.ss) && |d| == l.bVol + l.nVol && (l.bVol == 0 || l.bVol == FDISK_START)
    requires tbl.Length == l.ss
    modifies tbl
    ensures |e| == |d| && BootWritten(e, l) && Untouched(d, e, l)
    ensures l.fatType == Fat32 ==> l.bVol + 6 < |e| && e[l.bVol + 6] == e[l.bVol]
  {
    hide Sound, IsVbr, IsMbr, LayoutStorable, SectorSizeOk, RootSpan;
    SoundNumbers(l);
    e := d;
    if l.bVol != 0 {
      WriteMbr(tbl, l);
      e := e[0 := tbl[..]];
    }
    WriteVbr(tbl, l, MediaOf(l), vsn);
    e := e[l.bVol := tbl[..]];
    if l.fatType == Fat32 {
      e := e[l.bVol + 6 := tbl[..]];
    }
  }

  /** The FAT and the root directory, both in the sectors from bVol + nRsv on. */
  method PutAreas(d: seq<Sector>, tbl: array<byte>, l: Layout) returns (ok: bool, e: seq<Sector>)
    requires Sound(l) && IsDrive(d, l.ss) && |d| == l.bVol + l.nVol && tbl.Length == l.ss
    modifies tbl
    ensures IsDrive(e, l.ss) && |e| == |d| && forall s | 0 <= s < l.bVol + l.nRsv && s < |d| :: e[s] == d[s]
    ensures Untouched(d, e, l)
    ensures ok == (l.bVol + l.nRsv + l.nFat + RootSpan(l) <= |d|)
    ensures ok ==> HeadThenZero(e[l.bVol + l.nRsv], FatHead(l.fatType, MediaOf(l)))
    ensures ok ==> Zeroed(e, l.bVol + l.nRsv + 1, l.bVol + l.nRsv + l.nFat + RootSpan(l))
  {
    hide Sound, HeadThenZero, LayoutStorable, FatHead, SectorSizeOk, RootSpan, Layout.Fits;
    SoundNumbers(l);
    WriteFatHead(tbl, l.fatType, MediaOf(l));
    ok, e := PutCopies(d, tbl, l.bVol + l.nRsv, 1);
    if !ok { return; }
    Clear(tbl);
    ZeroSector(tbl[..]);
    ok, e := PutCopies(e, tbl, l.bVol + l.nRsv + 1, l.nFat - 1);
    if !ok { return; }
    ok, e := PutCopies(e, tbl, l.bVol + l.nRsv + l.nFat, RootSpan(l));
  }

  /** Writing the planned layout to the drive. */
  method LayOut(d: seq<Sector>, tbl: array<byte>, l: Layout, vsn: nat) returns (ok: bool, e: seq<Sector>)
    requires Sound(l) && IsDrive(d, l.ss) && |d| == l.bVol + l.nVol && (l.bVol == 0 || l.bVol == FDISK_START)
    requires tbl.Length == l.ss
    modifies tbl
    ensures |e| == |d| && BootWritten(e, l) && Untouched(d, e, l)
    ensures ok == (l.bVol + l.nRsv + l.nFat + RootSpan(l) <= |d|)
    ensures l.au > 0 && (l.Fits() ==> ok && Formatted(e, l, MediaOf(l)))
  {
    hide Sound, IsVbr, IsMbr, HeadThenZero, IsInfoOf, LayoutStorable, FatHead, FinalClusters, Layout.Clusters,
         SectorSizeOk, RootSpan, MediaOf;
    SoundNumbers(l);
    e := PutBoot(d, tbl, l, vsn);
    ok, e := PutAreas(e, tbl, l);
    if l.fatType == Fat32 && ok {
      FinalIsClusters(l);
      WriteInfo(tbl, FinalClusters(l));
      e := e[l.bVol + 1 := tbl[..]][l.bVol + 7 := tbl[..]];
    }
  }

  /** The plan for a drive and the caller's allocation unit in bytes. */
  function PlanFor(ss: nat, nDrive: nat, sfd: bool, au: nat, block: nat): (p: Plan)
    requires SectorSizeOk(ss)
  {
    if nDrive < 128 then TooSmallDrive else
    PlanOf(ss, nDrive, sfd, UnitSectors(ss, nDrive - (if sfd then 0 else FDISK_START), au), block)
  }

  /**
   * f_mkfs.  The plan decides the outcome; a layout that leaves a cluster is written completely, and
   * in every other planned case the boot record at least is.
   */
  method Mkfs(d: seq<Sector>, win: array<byte>, ss: nat, sfd: bool, au: nat, block: nat, vsn: nat)
    returns (r: FormatStatus, e: seq<Sector>)
    requires IsDrive(d, ss) && |d| < DWORD_SPAN && win.Length == ss
    requires |d| >= 128 ==> UnitsIn(|d|, UnitSectors(ss, |d| - (if sfd then 0 else FDISK_START), au)) + 2 <= END_MARK
    requires block == 0 || block > 32768 || PowerOfTwo(block)
    modifies win
    ensures |e| == |d|
    ensures PlanFor(ss, |d|, sfd, au, block) == TooSmallDrive ==> r == DriveError && e == d
    ensures PlanFor(ss, |d|, sfd, au, block) == Aborted ==> r == MkfsAborted && e == d
    ensures PlanFor(ss, |d|, sfd, au, block).Planned? ==>
              var l := PlanFor(ss, |d|, sfd, au, block).layout;
              && Sound(l) && l.au > 0 && BootWritten(e, l) && Untouched(d, e, l)
              && r == (if l.bVol + l.nRsv + l.nFat + RootSpan(l) <= |d| then FormatOk else DriveError)
              && (l.Fits() ==> r == FormatOk && Formatted(e, l, MediaOf(l)))
  {
    hide Sound, BootWritten, Formatted, Untouched, PlanOf, UnitSectors, MediaOf, RootSpan, SectorSizeOk, GoodUnit;
    e := d;
    if |d| < 128 {
      r := DriveError;
      return;
    }
    var n := ChooseUnit(ss, |d| - (if sfd then 0 else FDISK_START), au);
    ChosenUnit(n);
    NotTooSmall(ss, |d|, sfd, n, block);
    var plan := PlanOf(ss, |d|, sfd, n, block);
    if !plan.Planned? {
      r := MkfsAborted;
      return;
    }
    PlanFacts(ss, |d|, sfd, n, block);
    var ok;
    ok, e := LayOut(d, win, plan.layout, vsn);
    r := if ok then FormatOk else DriveError;
  }

  lemma ChosenUnit(n: nat)
    requires n in {1, 2, 4, 8, 16, 32, 64, 128}
    ensures GoodUnit(n) && n > 0
  {
  }

  lemma NotTooSmall(ss: nat, nDrive: nat, sfd: bool, au: nat, block: nat)
    requires SectorSizeOk(ss) && au > 0 && nDrive >= 128
    ensures PlanOf(ss, nDrive, sfd, au, block) != TooSmallDrive
  {
  }

  /**
   * Moving the data area to an erase block can take the last cluster: f_mkfs then succeeds on a drive that
   * will not mount.
   */
  lemma AlignmentTakesLastCluster()
    ensures PlanOf(512, 150, true, 64, 128) == Planned(Layout(Fat12, 512, 0, 150, 64, 1, 95, 32))
    ensures var l := Layout(Fat12, 512, 0, 150, 64, 1, 95, 32);
            !l.Fits() && l.bVol + l.nRsv + l.nFat + RootSpan(l) <= 150
  {
    assert BaseLayout(512, 150, true, 64) == Layout(Fat12, 512, 0, 150, 64, 1, 1, 32);
    assert AlignUp(34, 128) == 128;
  }
}
