// The sectors f_mkfs writes and a mount reads, byte by byte, and the layout and
// mount decisions in numbers (dfs/ff.c: f_mkfs, check_fs, chk_mounted).
module FatRecord {
  import opened Words
  import opened FatVolume
  import opened FatFormat
  import opened FatMount
  import opened FatMkfs

  // ----- Bytes -----

  /** The number that bytes stand for, low byte first. */
  function Little(bs: seq<byte>): nat {
    if bs == [] then 0 else (bs[0] as int) + 0x100 * Little(bs[1..])
  }

  lemma LittleOf(b0: byte, b1: byte, b2: byte, b3: byte)
    ensures Little([b0, b1]) == b0 + 0x100 * b1
    ensures Little([b0, b1, b2, b3]) == b0 + 0x100 * b1 + 0x1_0000 * b2 + 0x100_0000 * b3
  {
    var three: seq<byte> := [b1, b2, b3];
    var two: seq<byte> := [b2, b3];
    assert [b0, b1, b2, b3][1..] == three && three[1..] == two && two[1..] == [b3] && [b3][1..] == [];
    assert Little([b3]) == b3;
    assert Little(two) == b2 + 0x100 * b3;
    assert [b0, b1][1..] == [b1] && [b1][1..] == [];
    assert Little([b1]) == b1;
  }

  lemma LittleWord(s: Sector, i: nat)
    requires i + 2 <= |s|
    ensures LdWord(s, i) == Little(s[i..i + 2])
  {
    hide Little;
    LittleOf(s[i], s[i + 1], 0, 0);
    assert s[i..i + 2] == [s[i], s[i + 1]];
  }

  lemma LittleDword(s: Sector, i: nat)
    requires i + 4 <= |s|
    ensures LdDword(s, i) == Little(s[i..i + 4])
  {
    hide Little;
    LittleOf(s[i], s[i + 1], s[i + 2], s[i + 3]);
    assert s[i..i + 4] == [s[i], s[i + 1], s[i + 2], s[i + 3]];
  }

  /** Where chk_mounted finds the fields of a boot record. */
  lemma FieldsInBytes(s: Sector)
    requires |s| >= 512
    ensures FieldsOf(s) == Fields(
              bytsPerSec := Little(s[11..13]),
              secPerClus := s[13],
              rsvdSecCnt := Little(s[14..16]),
              numFats := s[16],
              rootEntCnt := Little(s[17..19]),
              totSec16 := Little(s[19..21]),
              fatSz16 := Little(s[22..24]),
              totSec32 := Little(s[32..36]),
              fatSz32 := Little(s[36..40]),
              rootClus := Little(s[44..48]),
              fsInfo := Little(s[48..50]))
  {
    hide LdWord, LdDword, Little;
    LittleWord(s, 11);
    LittleWord(s, 14);
    LittleWord(s, 17);
    LittleWord(s, 19);
    LittleWord(s, 22);
    LittleWord(s, 48);
    LittleDword(s, 32);
    LittleDword(s, 36);
    LittleDword(s, 44);
  }

  /** "FAT" as chk_mounted looks for it. */
  lemma TagBytes(s: Sector, i: nat)
    requires i + 4 <= |s|
    ensures Tag(s, i) == FAT_STRING <==> s[i] == 0x46 && s[i + 1] == 0x41 && s[i + 2] == 0x54
  {
    LowBytes(s[i], s[i + 1], s[i + 2], s[i + 3]);
  }

  lemma LowBytes(b0: byte, b1: byte, b2: byte, b3: byte)
    ensures Quad(b0, b1, b2, b3) % 0x100_0000 == 0x54_4146 <==> b0 == 0x46 && b1 == 0x41 && b2 == 0x54
  {
    var low := b0 + 0x100 * b1 + 0x1_0000 * b2;
    DivModUnique(Quad(b0, b1, b2, b3), b3, low, 0x100_0000);
  }

  lemma SignatureBytes(s: Sector)
    requires |s| >= 512
    ensures LdWord(s, BS_55AA) == SIGNATURE <==> s[510] == 0x55 && s[511] == 0xAA
  {
  }

  /** check_fs: the signature in the last two bytes of the first 512, and "FAT" at 54 or 82. */
  lemma CheckInBytes(s: Sector)
    requires |s| >= 512
    ensures CheckFs(s) == NotRecord <==> s[510] != 0x55 || s[511] != 0xAA
    ensures CheckFs(s) == FatRecord <==>
            && s[510] == 0x55 && s[511] == 0xAA
            && (s[54..57] == [0x46, 0x41, 0x54] || s[82..85] == [0x46, 0x41, 0x54])
  {
    hide Tag, LdWord;
    SignatureBytes(s);
    TagBytes(s, 54);
    TagBytes(s, 82);
  }

  /** The boot record f_mkfs writes, byte by byte. */
  lemma VbrInBytes(s: Sector, l: Layout)
    ensures IsVbr(s, l) <==>
            && |s| == l.ss >= 512
            && Little(s[11..13]) == l.ss && s[13] == l.au && Little(s[14..16]) == l.nRsv && s[16] == 1
            && Little(s[17..19]) == (if l.fatType == Fat32 then 0 else 512)
            && Little(s[19..21]) == (if l.nVol < 0x1_0000 then l.nVol else 0)
            && (l.nVol >= 0x1_0000 ==> Little(s[32..36]) == l.nVol)
            && Little(s[22..24]) == (if l.fatType == Fat32 then 0 else l.nFat)
            && (l.fatType == Fat32 ==>
                  && Little(s[36..40]) == l.nFat
                  && Little(s[44..48]) == 2 && Little(s[48..50]) == 1)
            && s[if l.fatType == Fat32 then 82 else 54..][..3] == [0x46, 0x41, 0x54]
            && s[510] == 0x55 && s[511] == 0xAA
  {
    if |s| >= 512 {
      hide Tag, LdWord, LdDword, Little;
      SignatureBytes(s);
      TagBytes(s, 54);
      TagBytes(s, 82);
      LittleWord(s, 11);
      LittleWord(s, 14);
      LittleWord(s, 17);
      LittleWord(s, 19);
      LittleWord(s, 22);
      LittleWord(s, 48);
      LittleDword(s, 32);
      LittleDword(s, 36);
      LittleDword(s, 44);
    }
  }

  /** FSInfo: its signatures, the free count at 488 and the last cluster taken at 492. */
  lemma InfoInBytes(s: Sector, n: nat)
    ensures IsFsInfo(s) <==>
            && |s| >= 512 && s[510] == 0x55 && s[511] == 0xAA
            && Little(s[0..4]) == 0x4161_5252 && Little(s[484..488]) == 0x6141_7272
    ensures IsInfoOf(s, n) <==>
            && IsFsInfo(s)
            && Little(s[488..492]) == n - 1
            && Little(s[492..496]) == 2
  {
    hide Tag, LdWord, LdDword, Little;
    if |s| >= 512 {
      SignatureBytes(s);
      LittleDword(s, 0);
      LittleDword(s, 484);
      LittleDword(s, 488);
      LittleDword(s, 492);
    }
  }

  /** The partition record: a type at 450 and the start sector, 63, at 454. */
  lemma MbrInBytes(s: Sector)
    ensures IsMbr(s) <==>
            && |s| >= 512 && s[510] == 0x55 && s[511] == 0xAA
            && s[54..57] != [0x46, 0x41, 0x54] && s[82..85] != [0x46, 0x41, 0x54]
            && s[450] != 0 && Little(s[454..458]) == 63
  {
    hide CheckFs, LdDword, Little;
    if |s| >= 512 {
      CheckInBytes(s);
      LittleDword(s, 454);
    }
  }

  /** Where a mount looks: sector 0, or the sector that the first partition record names at 454. */
  lemma LocateInBytes(d: seq<Sector>, ss: nat)
    requires IsDrive(d, ss)
    ensures CheckFs(d[0]) == FatRecord ==> Locate(d, ss) == Analyse(FieldsOf(d[0]), ss, 0)
    ensures CheckFs(d[0]) == NotRecord ==> Locate(d, ss) == NoFilesystem
    ensures CheckFs(d[0]) == OtherRecord ==>
              var b := Little(d[0][454..458]);
              Locate(d, ss) ==
              if d[0][450] == 0 then NoFilesystem
              else if b >= |d| then DiskErr
              else if CheckFs(d[b]) == FatRecord then Analyse(FieldsOf(d[b]), ss, b)
              else NoFilesystem
  {
    hide Analyse, FieldsOf, CheckFs, LdDword, Little;
    LittleDword(d[0], 454);
  }

  /** The hints of a FAT32 volume come from 492 (last cluster) and 488 (free count) of its FSInfo sector. */
  lemma HintsInBytes(d: seq<Sector>, m: Mounting)
    requires m.Mounted? && (forall s | 0 <= s < |d| :: |d[s]| >= 512)
    ensures m.g.fatType == Fat32 && m.fsiSector < |d| && IsFsInfo(d[m.fsiSector]) ==>
              var s := d[m.fsiSector];
              && Hints(d, m).0 == Little(s[492..496])
              && Hints(d, m).1 == Little(s[488..492])
    ensures m.g.fatType != Fat32 || m.fsiSector >= |d| || !IsFsInfo(d[m.fsiSector]) ==>
              Hints(d, m) == (0, 0xFFFF_FFFF)
  {
    hide IsFsInfo, LdDword, Little;
    if m.fsiSector < |d| {
      LittleDword(d[m.fsiSector], 488);
      LittleDword(d[m.fsiSector], 492);
    }
  }

  // ----- Numbers -----

  /** The sub-type follows from the number of clusters. */
  lemma SubTypeBounds(n: nat)
    ensures SubType(n) == Fat12 <==> n < 4086
    ensures SubType(n) == Fat16 <==> 4086 <= n < 65526
    ensures SubType(n) == Fat32 <==> 65526 <= n
  {
  }

  /** Whether a FAT of size bytes holds n entries. */
  predicate HoldsEntries(fatType: FatType, n: nat, size: nat) {
    match fatType
    case Fat12 => 3 * n <= 2 * size
    case Fat16 => 2 * n <= size
    case Fat32 => 4 * n <= size
  }

  function TypeFor(n: nat): FatType {
    if n < 4086 then Fat12 else if n < 65526 then Fat16 else Fat32
  }

  /** Sectors in front of the data area: reserved, FAT copies, root directory. */
  function AreaOf(f: Fields, ss: nat, fatSize: nat): nat
    requires ss > 0
  {
    f.rsvdSecCnt + f.numFats * fatSize + f.rootEntCnt * 32 / ss
  }

  /** The conditions for a mount, given the number n of whole clusters behind the area. */
  predicate Mountable(f: Fields, ss: nat, total: nat, fatSize: nat, n: nat)
    requires ss > 0
  {
    && f.bytsPerSec == ss && f.numFats in {1, 2} && f.secPerClus in {1, 2, 4, 8, 16, 32, 64, 128}
    && f.rootEntCnt * 32 % ss == 0 && f.rsvdSecCnt > 0 && AreaOf(f, ss, fatSize) <= total
    && n > 0 && (n >= 65526 <==> f.rootEntCnt == 0) && HoldsEntries(TypeFor(n), n + 2, fatSize * ss)
  }

  /**
   * The analysis in numbers, as long as the sizes stay within 32 bits: exactly which records mount, and
   * as what.
   */
  lemma MountsExactly(f: Fields, ss: nat, bsect: nat, total: nat, fatSize: nat, n: nat)
    requires SectorSizeOk(ss) && f.secPerClus < 0x100
    requires total == if f.totSec16 != 0 then f.totSec16 else f.totSec32
    requires fatSize == if f.fatSz16 != 0 then f.fatSz16 else f.fatSz32
    requires AreaOf(f, ss, fatSize) < 0x1_0000_0000 && bsect + total <= 0x1_0000_0000 && n + 2 <= 0x0FFF_FFFF
    requires f.secPerClus > 0 && AreaOf(f, ss, fatSize) <= total ==>
               n * f.secPerClus <= total - AreaOf(f, ss, fatSize) < n * f.secPerClus + f.secPerClus
    ensures Analyse(f, ss, bsect) ==
            if !Mountable(f, ss, total, fatSize, n) then NoFilesystem else
            Mounted(Geometry(TypeFor(n), ss, f.secPerClus, f.numFats, n + 2, fatSize, bsect + f.rsvdSecCnt,
                             bsect + AreaOf(f, ss, fatSize)),
                    f.rootEntCnt,
                    if n >= 65526 then f.rootClus else bsect + f.rsvdSecCnt + f.numFats * fatSize,
                    if n >= 65526 then Wrap(bsect + f.fsInfo) else 0)
  {
    hide PowerOfTwo, Wrap, TableBytes, SystemArea, Settle, AreaOf, ClusterCount, HoldsEntries, SectorSizeOk, TypeFor;
    UnitsExactly(f.secPerClus);
    RootEntries(f.rootEntCnt, ss);
    if f.numFats in {1, 2} && f.secPerClus > 0 {
      AreaIs(f, ss, fatSize);
      var area := AreaOf(f, ss, fatSize);
      WrapSmall(area);
      if area <= total {
        CountExactly(total, area, f.secPerClus, n);
        SettleExactly(f, ss, bsect, total, fatSize, n);
      }
    }
  }

  lemma UnitsExactly(n: nat)
    requires n < 0x100
    ensures n > 0 && PowerOfTwo(n) <==> n in {1, 2, 4, 8, 16, 32, 64, 128}
  {
    if n > 0 && PowerOfTwo(n) { SmallPower(n); }
    if n in {1, 2, 4, 8, 16, 32, 64, 128} { UnitIsPower(n); }
  }

  lemma RootEntries(n: nat, ss: nat)
    requires SectorSizeOk(ss)
    ensures ss > 0 && n / (ss / SZ_DIR) == n * 32 / ss && (n % (ss / SZ_DIR) == 0 <==> n * 32 % ss == 0)
  {
    var k := ss / 32;
    DivMod(n, k);
    assert n * 32 == n / k * (k * 32) + n % k * 32;
    DivModUnique(n * 32, n / k, n % k * 32, ss);
  }

  lemma AreaIs(f: Fields, ss: nat, fatSize: nat)
    requires SectorSizeOk(ss) && f.numFats in {1, 2} && fatSize == f.FatSize()
    ensures SystemArea(f, ss) == AreaOf(f, ss, fatSize) == f.rsvdSecCnt + f.numFats * fatSize + RootSectors(f, ss)
    ensures f.numFats * fatSize == if f.numFats == 2 then 2 * fatSize else fatSize
  {
    RootEntries(f.rootEntCnt, ss);
  }

  lemma CountExactly(total: nat, area: nat, csize: nat, n: nat)
    requires csize > 0 && area <= total && n * csize <= total - area < n * csize + csize
    ensures ClusterCount(total, area, csize) == n && (n > 0 ==> area < total)
  {
    DivModUnique(total - area, n, total - area - n * csize, csize);
    if n > 0 { MulGap(n, csize); }
  }

  lemma SettleExactly(f: Fields, ss: nat, bsect: nat, total: nat, fatSize: nat, n: nat)
    requires SectorSizeOk(ss) && f.numFats in {1, 2} && f.secPerClus > 0 && fatSize == f.FatSize()
    requires SystemArea(f, ss) == AreaOf(f, ss, fatSize) <= total && bsect + total <= 0x1_0000_0000
    requires n + 2 <= 0x0FFF_FFFF && (n > 0 ==> AreaOf(f, ss, fatSize) < total)
    ensures Settle(f, ss, bsect, n) ==
            if !(n > 0 && (n >= 65526 <==> f.rootEntCnt == 0) && HoldsEntries(TypeFor(n), n + 2, fatSize * ss))
            then NoFilesystem else
            Mounted(Geometry(TypeFor(n), ss, f.secPerClus, f.numFats, n + 2, fatSize, bsect + f.rsvdSecCnt,
                             bsect + AreaOf(f, ss, fatSize)),
                    f.rootEntCnt,
                    if n >= 65526 then f.rootClus else bsect + f.rsvdSecCnt + f.numFats * fatSize,
                    if n >= 65526 then Wrap(bsect + f.fsInfo) else 0)
  {
    hide Wrap, TableBytes, SystemArea, AreaOf, HoldsEntries, SectorSizeOk, Fields.FatSize;
    Sizes(ss);
    if n > 0 {
      var t, area := TypeFor(n), AreaOf(f, ss, fatSize);
      AreaIs(f, ss, fatSize);
      TableBytesSmall(t, n + 2, ss);
      CeilLe(TableBytes(t, n + 2), ss, fatSize);
      HoldsIs(t, n + 2, fatSize * ss);
      WrapSmall(area);
      WrapSmall(bsect + area);
      WrapSmall(bsect + f.rsvdSecCnt);
      WrapSmall(bsect + f.rsvdSecCnt + f.numFats * fatSize);
    }
  }

  lemma Sizes(ss: nat)
    requires SectorSizeOk(ss)
    ensures 512 <= ss <= 4096
  {
  }

  lemma HoldsIs(fatType: FatType, n: nat, size: nat)
    ensures TableBytes(fatType, n) <= size <==> HoldsEntries(fatType, n, size)
  {
    OneAndAHalf(n);
    hide *;
    HoldsBytes(fatType, n, size);
  }

  lemma HoldsBytes(fatType: FatType, n: nat, size: nat)
    requires n * 3 / 2 == n + n / 2
    ensures TableBytes(fatType, n) <= size <==> HoldsEntries(fatType, n, size)
  {
    var h := n / 2;
    assert n == 2 * h + n % 2;
    assert 3 * n == 2 * (n + h + n % 2) - n % 2;
  }

  /** The 1.44 MB floppy: 2880 sectors, two FATs of 9, 224 root entries. */
  lemma FloppyMounts(f: Fields)
    requires f.bytsPerSec == 512 && f.secPerClus == 1 && f.rsvdSecCnt == 1 && f.numFats == 2 && f.rootEntCnt == 224
    requires f.totSec16 == 2880 && f.fatSz16 == 9
    ensures Analyse(f, 512, 0) == Mounted(Geometry(Fat12, 512, 1, 2, 2849, 9, 1, 33), 224, 19, 0)
  {
    MountsExactly(f, 512, 0, 2880, 9, 2847);
  }

  /** Bytes f_mkfs reserves for a FAT of n clusters. */
  function BytesFor(n: nat): nat {
    match TypeFor(n)
    case Fat12 => (3 * n + 1) / 2 + 3
    case Fat16 => 2 * n + 4
    case Fat32 => 4 * n + 8
  }

  /** The planned layout, from n clusters, a FAT of size sectors, and gap sectors of alignment. */
  function LayoutFor(ss: nat, nDrive: nat, sfd: bool, au: nat, n: nat, size: nat, gap: nat): Layout
    requires ss > 0 && nDrive >= 128
  {
    var bVol := if sfd then 0 else 63;
    if n >= 65526 then Layout(Fat32, ss, bVol, nDrive - bVol, au, 32 + gap, size, 0)
    else Layout(TypeFor(n), ss, bVol, nDrive - bVol, au, 1, size + gap, 512 * 32 / ss)
  }

  /**
   * The plan of f_mkfs in numbers: n whole clusters in the volume, the least FAT size for them, and the least gap
   * that puts the data area on a multiple of the erase block.
   */
  lemma PlanExactly(ss: nat, nDrive: nat, sfd: bool, au: nat, block: nat, n: nat, size: nat, gap: nat)
    requires SectorSizeOk(ss) && au > 0 && nDrive >= 128 && size > 0
    requires var nVol := nDrive - (if sfd then 0 else 63); n * au <= nVol < n * au + au
    requires (size - 1) * ss < BytesFor(n) <= size * ss
    requires var l := LayoutFor(ss, nDrive, sfd, au, n, size, gap);
             var k := if 1 <= block <= 32768 then block else 1;
             gap < k && (l.bVol + l.nRsv + l.nFat + l.nDir) % k == 0
    ensures var l := LayoutFor(ss, nDrive, sfd, au, n, size, gap);
            var area := l.nRsv + l.nFat + l.nDir;
            var left := (l.nVol - area) % 0x1_0000_0000 / au;
            PlanOf(ss, nDrive, sfd, au, block) ==
            if l.nVol + gap < l.bVol + area + au || (4086 <= n < 65526 && left < 4086) || (65526 <= n && left < 65526)
            then Aborted else Planned(l)
  {
    hide PlannedFatBytes, BytesFor, UnitsIn, CeilDiv, AlignUp, SectorSizeOk, RootDirSectors, FinalClusters;
    Sizes(ss);
    var base := BaseLayout(ss, nDrive, sfd, au);
    var l := LayoutFor(ss, nDrive, sfd, au, n, size, gap);
    UnitsAre(base.nVol, au, n);
    BytesAre(n);
    CeilIs(PlannedFatBytes(SubType(n), n), ss, size);
    RootIs(ss);
    var k := BlockSectors(block);
    AlignIs(base.bVol + base.SystemSectors(), k, gap);
    FinalIs(l);
  }

  lemma UnitsAre(nVol: nat, au: nat, n: nat)
    requires au > 0 && n * au <= nVol < n * au + au
    ensures UnitsIn(nVol, au) == n
  {
    DivModUnique(nVol, n, nVol - n * au, au);
  }

  lemma BytesAre(n: nat)
    ensures SubType(n) == TypeFor(n) && PlannedFatBytes(SubType(n), n) == BytesFor(n)
  {
  }

  lemma CeilIs(x: nat, d: nat, n: nat)
    requires d > 0 && n > 0 && (n - 1) * d < x <= n * d
    ensures CeilDiv(x, d) == n
  {
    CeilLe(x, d, n);
    CeilLe(x, d, n - 1);
  }

  lemma RootIs(ss: nat)
    requires SectorSizeOk(ss)
    ensures RootDirSectors(ss) == 512 * 32 / ss
  {
  }

  lemma AlignIs(x: nat, k: nat, gap: nat)
    requires k > 0 && gap < k && (x + gap) % k == 0
    ensures AlignUp(x, k) == x + gap
  {
    var q := (x + gap) / k;
    assert x + gap == q * k;
    assert x + k - 1 == q * k + (k - 1 - gap);
    DivModUnique(x + k - 1, q, k - 1 - gap, k);
  }

  lemma FinalIs(l: Layout)
    requires l.au > 0
    ensures FinalClusters(l) == (l.nVol - (l.nRsv + l.nFat + l.nDir)) % 0x1_0000_0000 / l.au
  {
  }

  /** The units f_mkfs chooses for a few volumes, and the caller's own if it is a power of two. */
  lemma UnitAnswers()
    ensures UnitSectors(512, 2880, 0) == 1 && UnitSectors(512, 20000, 0) == 8 && UnitSectors(512, 100000, 0) == 32
    ensures UnitSectors(512, 4194304, 0) == 64 && UnitSectors(4096, 250000, 0) == 4
    ensures UnitSectors(512, 20000, 1024) == 2 && UnitSectors(512, 20000, 1000) == 8
    ensures UnitSectors(512, 20000, 0x2_0000) == 128
  {
    hide PowerOfTwo;
    SomePowers();
  }

  lemma SomePowers()
    ensures !PowerOfTwo(0) && !PowerOfTwo(1000) && PowerOfTwo(1024) && PowerOfTwo(0x2_0000)
  {
    assert !PowerOfTwo(125);
    assert !PowerOfTwo(250) && !PowerOfTwo(500);
    assert PowerOfTwo(16);
    assert PowerOfTwo(128);
    assert PowerOfTwo(0x400);
    assert PowerOfTwo(0x2000);
    assert PowerOfTwo(0x1_0000);
  }

  /** Three drives: a floppy without a partition table, and partitions for 16-bit and 32-bit entries. */
  lemma SmallPlans()
    ensures PlanOf(512, 2880, true, 1, 1) == Planned(Layout(Fat12, 512, 0, 2880, 1, 1, 9, 32))
    ensures PlanOf(512, 65599, false, 4, 1) == Planned(Layout(Fat16, 512, 63, 65536, 4, 1, 65, 32))
    ensures PlanOf(512, 100063, false, 1, 128) == Planned(Layout(Fat32, 512, 63, 100000, 1, 51, 782, 0))
    ensures PlanOf(512, 127, true, 1, 1) == TooSmallDrive
  {
    hide PlanOf, LayoutFor, BytesFor;
    SmallSizes();
    SmallLayouts();
    PlanExactly(512, 2880, true, 1, 1, 2880, 9, 0);
    PlanExactly(512, 65599, false, 4, 1, 16384, 65, 0);
    PlanExactly(512, 100063, false, 1, 128, 100000, 782, 19);
    SmallDrive();
  }

  lemma SmallSizes()
    ensures BytesFor(2880) == 4323 && BytesFor(16384) == 32772 && BytesFor(100000) == 400008
  {
  }

  lemma SmallLayouts()
    ensures LayoutFor(512, 2880, true, 1, 2880, 9, 0) == Layout(Fat12, 512, 0, 2880, 1, 1, 9, 32)
    ensures LayoutFor(512, 65599, false, 4, 16384, 65, 0) == Layout(Fat16, 512, 63, 65536, 4, 1, 65, 32)
    ensures LayoutFor(512, 100063, false, 1, 100000, 782, 19) == Layout(Fat32, 512, 63, 100000, 1, 51, 782, 0)
  {
  }

  lemma SmallDrive()
    ensures PlanOf(512, 127, true, 1, 1) == TooSmallDrive
  {
  }
}
