// The mounted volume: the one-sector write-back window and the packed FAT
// entries behind it (dfs/ff.c: move_window, clust2sect, get_fat, put_fat).
module FatVolume {
  import opened Words

  datatype FatType = Fat12 | Fat16 | Fat32

  type Sector = seq<byte>

  const MIN_FAT16: nat := 4086
  const MIN_FAT32: nat := 65526
  const END_MARK: nat := 0x0FFF_FFFF
  const DISK_ERROR: nat := 0xFFFF_FFFF
  const UNKNOWN_COUNT: nat := 0xFFFF_FFFF

  datatype Status = Ok | IntErr | Denied | NotEnoughCore

  /** Bytes that n entries occupy. */
  function TableBytes(fatType: FatType, n: nat): nat {
    match fatType
    case Fat12 => n * 3 / 2 + n % 2
    case Fat16 => n * 2
    case Fat32 => n * 4
  }

  /** The layout fields of FATFS, fixed once the volume is mounted. */
  datatype Geometry = Geometry(
    fatType: FatType,
    ss: nat,        // bytes per sector
    csize: nat,     // sectors per cluster
    nFats: nat,     // FAT copies
    nFatent: nat,   // clusters + 2
    fsize: nat,     // sectors per FAT
    fatbase: nat,   // first FAT sector
    database: nat)  // first data sector
  {
    /** What chk_mounted has established about a mounted volume. */
    ghost predicate Valid() {
      && ss in {512, 1024, 2048, 4096}
      && csize in {1, 2, 4, 8, 16, 32, 64, 128}
      && 1 <= nFats <= 2
      && 3 <= nFatent
      && (fatType == Fat12 ==> nFatent < MIN_FAT16 + 2)
      && (fatType == Fat16 ==> nFatent < MIN_FAT32 + 2)
      && (fatType == Fat32 ==> nFatent <= END_MARK)
      && RequiredFatBytes() <= FatBytes()
      && 1 <= fatbase
      && FatEnd() <= database
      && SectorCount() <= DWORD_SPAN
    }

    /** Bytes in one FAT copy. */
    function FatBytes(): nat {
      fsize * ss
    }

    /** Bytes that nFatent entries occupy (szbfat of chk_mounted). */
    function RequiredFatBytes(): nat {
      TableBytes(fatType, nFatent)
    }

    /** The first sector after the FAT copies. */
    function FatEnd(): nat {
      fatbase + (if nFats == 2 then 2 * fsize else fsize)
    }

    function SectorCount(): nat
      requires nFatent >= 2
    {
      database + (nFatent - 2) * csize
    }

    /** The sector and the offset of byte i of the first FAT copy. */
    function ByteSector(i: nat): nat
      requires ss > 0
    {
      fatbase + i / ss
    }

    function ByteOffset(i: nat): nat
      requires ss > 0
    {
      i % ss
    }

    /** The sector of entry c when every entry is w bytes wide. */
    function RecordSector(c: nat, w: nat): nat
      requires ss >= w > 0
    {
      fatbase + c / (ss / w)
    }

    /** The width an entry value is reduced to when stored. */
    function EntrySpan(): (s: nat)
      ensures s > 0
    {
      match fatType
      case Fat12 => 0x1000
      case Fat16 => 0x10000
      case Fat32 => 0x1000_0000
    }

    /** clust2sect */
    function ClusterSector(clst: dword): (sect: nat)
      requires nFatent >= 2
    {
      var c := Sub32(clst, 2);
      if c >= nFatent - 2 then 0 else c * csize + database
    }
  }

  /** clust2sect answers 0 exactly for numbers that are not clusters of the volume. */
  lemma ClusterSectorRange(g: Geometry, clst: dword)
    requires g.Valid()
    ensures 2 <= clst < g.nFatent ==> g.ClusterSector(clst) == g.database + (clst - 2) * g.csize >= 1
    ensures !(2 <= clst < g.nFatent) ==> g.ClusterSector(clst) == 0
  {
    hide Geometry.Valid, Sub32;
    Sub32Wraps(clst, 2);
    ClustersBelowSectors(g);
  }

  lemma ClustersBelowSectors(g: Geometry)
    requires g.Valid()
    ensures 1 <= g.database && 3 <= g.nFatent && g.nFatent - 2 < 0x1_0000_0000 - 2 && 1 <= g.csize
  {
    MulLe(1, g.csize, g.nFatent - 2);
  }

  ghost predicate IsDisk(g: Geometry, d: seq<Sector>) {
    && g.nFatent >= 2
    && |d| >= g.SectorCount()
    && |d| <= DWORD_SPAN
    && forall s | 0 <= s < |d| :: |d[s]| == g.ss
  }

  lemma DiskNotEmpty(g: Geometry, d: seq<Sector>)
    requires g.Valid() && IsDisk(g, d)
    ensures |d| > 0
  {
    hide Geometry.Valid;
    ClustersBelowSectors(g);
    MulLe(0, g.nFatent - 2, g.csize);
  }

  /** Byte i of the first FAT copy. */
  ghost function FatByte(g: Geometry, d: seq<Sector>, i: nat): byte
    requires g.Valid() && IsDisk(g, d) && i < g.FatBytes()
  {
    FatByteInRange(g, i);
    d[g.ByteSector(i)][g.ByteOffset(i)]
  }

  lemma FatByteInRange(g: Geometry, i: nat)
    requires g.Valid() && i < g.FatBytes()
    ensures 1 <= g.fatbase <= g.ByteSector(i) < g.fatbase + g.fsize <= g.FatEnd() <= g.database <= g.SectorCount()
    ensures 0 <= g.ByteOffset(i) < g.ss
  {
    DivBound(i, g.fsize, g.ss);
  }

  lemma EntryFits(g: Geometry, c: nat)
    requires g.Valid() && c < g.nFatent
    ensures g.fatType == Fat12 ==> c + c / 2 + 1 < g.FatBytes()
    ensures g.fatType == Fat16 ==> c * 2 + 1 < g.FatBytes()
    ensures g.fatType == Fat32 ==> c * 4 + 3 < g.FatBytes()
  {
    hide Geometry.Valid, Geometry.FatBytes;
    FatHoldsEntries(g);
    OneAndAHalf(g.nFatent);
  }

  lemma OneAndAHalf(n: nat)
    ensures n * 3 / 2 == n + n / 2
  {
    DivModUnique(n * 3, n + n / 2, n % 2, 2);
  }

  lemma FatHoldsEntries(g: Geometry)
    requires g.Valid()
    ensures g.RequiredFatBytes() <= g.FatBytes()
  {
  }

  /** The value of entry c as the packed FAT encodes it. */
  ghost function Entry(g: Geometry, d: seq<Sector>, c: nat): (v: nat)
    requires g.Valid() && IsDisk(g, d) && c < g.nFatent
    ensures v < g.EntrySpan()
  {
    EntryFits(g, c);
    match g.fatType
    case Fat12 =>
      var w := Pair(FatByte(g, d, c + c / 2), FatByte(g, d, c + c / 2 + 1));
      if c % 2 == 1 then w / 16 else w % 0x1000
    case Fat16 =>
      Pair(FatByte(g, d, c * 2), FatByte(g, d, c * 2 + 1))
    case Fat32 =>
      Quad(FatByte(g, d, c * 4), FatByte(g, d, c * 4 + 1),
           FatByte(g, d, c * 4 + 2), FatByte(g, d, c * 4 + 3)) % 0x1000_0000
  }

  /** The whole FAT as a sequence of entry values. */
  ghost function Table(g: Geometry, d: seq<Sector>): (t: seq<nat>)
    requires g.Valid() && IsDisk(g, d)
    ensures |t| == g.nFatent
    ensures forall c | 0 <= c < |t| :: t[c] == Entry(g, d, c)
  {
    seq(g.nFatent, c requires 0 <= c < g.nFatent => Entry(g, d, c))
  }

  /** All FAT copies hold the same sectors. */
  ghost predicate MirrorsAgree(g: Geometry, d: seq<Sector>)
    requires g.Valid() && IsDisk(g, d)
  {
    g.nFats == 2 ==>
      forall s | g.fatbase <= s < g.fatbase + g.fsize :: d[s] == d[s + g.fsize]
  }

  /** d and e differ in the FAT area only. */
  ghost predicate SameOutsideFat(g: Geometry, d: seq<Sector>, e: seq<Sector>) {
    && |d| == |e|
    && forall s | 0 <= s < |d| && !(g.fatbase <= s < g.FatEnd()) :: d[s] == e[s]
  }

  lemma SameOutsideFatRefl(g: Geometry, d: seq<Sector>)
    ensures SameOutsideFat(g, d, d)
  {
  }

  /** The table depends on the FAT area only. */
  lemma TableFrame(g: Geometry, d: seq<Sector>, e: seq<Sector>)
    requires g.Valid() && IsDisk(g, d) && IsDisk(g, e) && |d| == |e|
    requires forall s | 0 <= s < g.database :: d[s] == e[s]
    ensures Table(g, d) == Table(g, e)
    ensures MirrorsAgree(g, d) <==> MirrorsAgree(g, e)
  {
    forall c | 0 <= c < g.nFatent ensures Entry(g, d, c) == Entry(g, e, c) {
      EntryFits(g, c);
      forall i: nat | i < g.FatBytes() ensures FatByte(g, d, i) == FatByte(g, e, i) {
        FatByteInRange(g, i);
      }
    }
  }

  /** The disk after a window holding data has been written back to sector s. */
  ghost function WriteBack(g: Geometry, d: seq<Sector>, s: nat, data: Sector): seq<Sector>
    requires g.Valid() && IsDisk(g, d) && s < |d|
    requires s < g.fatbase + g.fsize ==> g.fatbase <= s
  {
    if s < g.fatbase + g.fsize && g.nFats == 2
    then d[s := data][s + g.fsize := data]
    else d[s := data]
  }

  /** e is d with the FAT bytes from i on changed to bs, in every copy if the copies agreed. */
  ghost predicate FatPoked(g: Geometry, d: seq<Sector>, e: seq<Sector>, i: nat, bs: seq<byte>)
    requires g.Valid() && IsDisk(g, d)
  {
    && IsDisk(g, e)
    && (forall j: nat | j < g.FatBytes() ::
         FatByte(g, e, j) == if i <= j < i + |bs| then bs[j - i] else FatByte(g, d, j))
    && SameOutsideFat(g, d, e)
    && (MirrorsAgree(g, d) ==> MirrorsAgree(g, e))
  }

  /**
   * FAT bytes i to i + n - 1, when they do not cross a sector boundary, are exactly n consecutive cells of a
   * sector.
   */
  lemma RunInSector(g: Geometry, i: nat, j: nat, n: nat)
    requires g.ss > 0 && g.ByteOffset(i) + n <= g.ss
    ensures i <= j < i + n <==>
            g.ByteSector(j) == g.ByteSector(i) && g.ByteOffset(i) <= g.ByteOffset(j) < g.ByteOffset(i) + n
    ensures i <= j < i + n ==> g.ByteOffset(j) == g.ByteOffset(i) + (j - i)
  {
    assert i == (i / g.ss) * g.ss + i % g.ss;
    assert j == (j / g.ss) * g.ss + j % g.ss;
    if i <= j < i + n {
      DivModUnique(j, i / g.ss, i % g.ss + (j - i), g.ss);
    }
  }

  /** Bytes with those from offset o on replaced by bs. */
  ghost function Overwrite(s: seq<byte>, o: nat, bs: seq<byte>): (t: seq<byte>)
    requires o + |bs| <= |s|
    ensures |t| == |s|
  {
    s[..o] + bs + s[o + |bs|..]
  }

  lemma PokeInSector(g: Geometry, d: seq<Sector>, i: nat, bs: seq<byte>)
    requires g.Valid() && IsDisk(g, d) && i < g.FatBytes() && g.ByteOffset(i) + |bs| <= g.ss
    ensures 1 <= g.fatbase <= g.ByteSector(i) < g.fatbase + g.fsize && g.ByteSector(i) < |d|
    ensures |d[g.ByteSector(i)]| == g.ss
    ensures FatPoked(g, d, WriteBack(g, d, g.ByteSector(i), Overwrite(d[g.ByteSector(i)], g.ByteOffset(i), bs)), i, bs)
  {
    FatByteInRange(g, i);
    var s := g.ByteSector(i);
    var e := WriteBack(g, d, s, Overwrite(d[s], g.ByteOffset(i), bs));
    forall j: nat | j < g.FatBytes()
      ensures FatByte(g, e, j) == if i <= j < i + |bs| then bs[j - i] else FatByte(g, d, j)
    {
      PokedByte(g, d, i, bs, j);
    }
  }

  lemma PokedByte(g: Geometry, d: seq<Sector>, i: nat, bs: seq<byte>, j: nat)
    requires g.Valid() && IsDisk(g, d) && i < g.FatBytes() && j < g.FatBytes() && g.ByteOffset(i) + |bs| <= g.ss
    requires 1 <= g.fatbase <= g.ByteSector(i) < g.fatbase + g.fsize && g.ByteSector(i) < |d|
    requires |d[g.ByteSector(i)]| == g.ss
    requires var s := g.ByteSector(i); IsDisk(g, WriteBack(g, d, s, Overwrite(d[s], g.ByteOffset(i), bs)))
    ensures var s := g.ByteSector(i);
            var e := WriteBack(g, d, s, Overwrite(d[s], g.ByteOffset(i), bs));
            FatByte(g, e, j) == if i <= j < i + |bs| then bs[j - i] else FatByte(g, d, j)
  {
    hide Geometry.Valid, Geometry.ByteSector, Geometry.ByteOffset, Geometry.FatBytes;
    FatByteInRange(g, j);
    FatByteInRange(g, i);
    SectorBytes(g);
    RunInSector(g, i, j, |bs|);
  }

  lemma SectorBytes(g: Geometry)
    requires g.Valid()
    ensures g.ss >= 512
  {
  }

  /** d with the first i of some blocks stored from sector sect on. */
  ghost function PartWritten(d: seq<Sector>, blocks: seq<Sector>, sect: nat, i: nat): (e: seq<Sector>)
    requires i <= |blocks| && sect + |blocks| <= |d|
  {
    d[..sect] + blocks[..i] + d[sect + i..]
  }

  lemma NoBlock(d: seq<Sector>, blocks: seq<Sector>, sect: nat)
    requires sect + |blocks| <= |d|
    ensures PartWritten(d, blocks, sect, 0) == d
    ensures PartWritten(d, blocks, sect, |blocks|) == d[..sect] + blocks + d[sect + |blocks|..]
  {
  }

  lemma OneMoreBlock(d: seq<Sector>, blocks: seq<Sector>, sect: nat, i: nat)
    requires i < |blocks| && sect + |blocks| <= |d|
    ensures |PartWritten(d, blocks, sect, i)| == |d|
    ensures PartWritten(d, blocks, sect, i)[sect + i := blocks[i]] == PartWritten(d, blocks, sect, i + 1)
  {
  }

  class Volume {
    const g: Geometry
    const win: array<byte>
    const size: nat
    var disk: seq<Sector>
    var winsect: nat
    var wflag: bool
    var lastClust: dword
    var freeClust: dword
    var fsiFlag: bool

    /** The disk as it will be once the window is written back: what every reader of the volume sees. */
    ghost var image: seq<Sector>

    ghost predicate Valid()
      reads this`disk, this`winsect, this`wflag, this`image, win
    {
      && g.Valid()
      && IsDisk(g, disk) && IsDisk(g, image) && |disk| == |image| == size
      && win.Length == g.ss
      && winsect < |disk|
      && (wflag ==> g.fatbase <= winsect && !(g.fatbase + g.fsize <= winsect < g.FatEnd()))
      && (!wflag && winsect != 0 ==> win[..] == disk[winsect])
      && image == (if wflag then WriteBack(g, disk, winsect, win[..]) else disk)
    }

    /** What chk_mounted leaves in a file system object: an empty, clean window and the hints. */
    constructor Mount(g: Geometry, disk: seq<Sector>, hints: (dword, dword))
      requires g.Valid() && IsDisk(g, disk)
      ensures Valid() && this.g == g && this.disk == this.image == disk && fresh(win)
      ensures winsect == 0 && !wflag && (lastClust, freeClust) == hints
    {
      hide Geometry.Valid;
      DiskNotEmpty(g, disk);
      this.g := g;
      win := new byte[g.ss];
      size := |disk|;
      this.disk := disk;
      winsect := 0;
      wflag := false;
      lastClust := hints.0;
      freeClust := hints.1;
      fsiFlag := false;
      image := disk;
    }

    lemma ImageIsDisk()
      requires Valid()
      ensures g.Valid() && IsDisk(g, image) && |image| == |disk| == size && win.Length == g.ss
      ensures g.ss >= 4 && 1 <= g.fatbase && 1 <= g.nFats <= 2
      ensures g.nFatent >= 3 && g.FatEnd() <= g.database <= g.SectorCount() <= size
      ensures wflag ==> image[winsect] == win[..]
    {
    }

    ghost function Fat(): (t: seq<nat>)
      requires g.Valid() && IsDisk(g, image)
      reads this`image
      ensures |t| == g.nFatent
      ensures forall c | 0 <= c < |t| :: t[c] == Entry(g, image, c)
    {
      Table(g, image)
    }

    lemma FatIsTable()
      requires Valid()
      ensures Fat() == Table(g, image)
    {
    }

    /** Whenever the window is clean, copies that agree for the readers agree on the disk. */
    lemma CleanCopiesAgree()
      requires Valid() && !wflag && MirrorsAgree(g, image)
      ensures MirrorsAgree(g, disk)
    {
    }

    /** Write back a dirty window, to every FAT copy when it shows a FAT sector. */
    method WriteBackWindow()
      requires Valid()
      modifies this`disk, this`wflag
      ensures Valid() && !wflag
    {
      hide Geometry.Valid;
      if wflag {
        ImageIsDisk();
        var wsect := winsect;
        var data := win[..];
        disk := disk[wsect := data];
        wflag := false;
        if wsect < g.fatbase + g.fsize {
          var nf := g.nFats;
          while nf > 1
            invariant 1 <= nf <= g.nFats
            invariant !wflag
            invariant nf == g.nFats ==> wsect == winsect && disk == old(disk)[winsect := data]
            invariant nf < g.nFats ==> disk == image
          {
            wsect := wsect + g.fsize;
            disk := disk[wsect := data];
            nf := nf - 1;
          }
        }
        assert disk == image;
      }
    }

    method MoveWindow(sector: nat)
      requires Valid() && sector < size
      modifies this`disk, this`winsect, this`wflag, win
      ensures Valid()
      ensures sector != 0 ==> winsect == sector && win[..] == image[sector]
      ensures sector == 0 ==> !wflag && winsect == old(winsect)
    {
      ImageIsDisk();
      hide Geometry.Valid;
      if winsect != sector {
        WriteBackWindow();
        if sector != 0 {
          var data := disk[sector];
          forall i | 0 <= i < win.Length { win[i] := data[i]; }
          assert win[..] == data;
          winsect := sector;
        }
      }
    }

    lemma DataSectorOnDisk(s: nat)
      requires Valid() && g.database <= s < size && s != winsect
      ensures image[s] == disk[s]
    {
      hide Geometry.Valid;
      ImageIsDisk();
    }

    /** disk_read of n data sectors the window does not show. */
    method DiskRead(sect: nat, n: nat) returns (data: seq<byte>)
      requires Valid() && g.database <= sect && sect + n <= size
      requires !(sect <= winsect < sect + n)
      ensures |image| == size && data == Flat(image[sect..sect + n])
    {
      hide *;
      ImageIsDisk();
      data := [];
      var i := 0;
      FlatNone();
      while i < n
        invariant 0 <= i <= n
        invariant data == Flat(image[sect..sect + i])
      {
        DataSectorOnDisk(sect + i);
        FlatMore(image[sect..sect + i + 1]);
        assert image[sect..sect + i + 1][..i] == image[sect..sect + i];
        data := data + disk[sect + i];
        i := i + 1;
      }
    }

    method WriteSector(s: nat, b: Sector)
      requires Valid() && g.database <= s < size && s != winsect && |b| == g.ss
      modifies this`disk, this`image
      ensures Valid() && |old(image)| == size && image == old(image)[s := b]
      ensures Fat() == old(Fat())
    {
      hide Geometry.Valid, Entry, FatByte, Table, MirrorsAgree, Geometry.SectorCount;
      ImageIsDisk();
      disk := disk[s := b];
      image := image[s := b];
      assert image == if wflag then WriteBack(g, disk, winsect, win[..]) else disk;
      TableFrame(g, old(image), image);
      FatIsTable();
    }

    /** disk_write of n data sectors the window does not show. */
    method DiskWrite(sect: nat, n: nat, data: seq<byte>)
      requires Valid() && g.database <= sect && sect + n <= size && |data| == n * g.ss
      requires !(sect <= winsect < sect + n)
      modifies this`disk, this`image
      ensures Valid() && |old(image)| == size
      ensures Fat() == old(Fat())
      ensures image == old(image)[..sect] + Blocks(data, n, g.ss) + old(image)[sect + n..]
    {
      hide *;
      ImageIsDisk();
      ghost var blocks := Blocks(data, n, g.ss);
      NoBlock(image, blocks, sect);
      var i := 0;
      while i < n
        invariant 0 <= i <= n && Valid() && g.Valid() && IsDisk(g, image) && Fat() == old(Fat())
        invariant |blocks| == n && |old(image)| == size && image == PartWritten(old(image), blocks, sect, i)
      {
        var b: Sector := Block(data, n, g.ss, i);
        BlocksAt(data, n, g.ss, i);
        WriteSector(sect + i, b);
        OneMoreBlock(old(image), blocks, sect, i);
        i := i + 1;
        ImageIsDisk();
      }
    }

    /** Store bs from byte i of the FAT on, through a window that already shows its sector. */
    method PokeFat(i: nat, bs: seq<byte>)
      requires Valid() && i < g.FatBytes()
      requires winsect == g.ByteSector(i) && g.ByteOffset(i) + |bs| <= g.ss
      modifies this`wflag, this`image, win
      ensures Valid() && wflag
      ensures FatPoked(g, old(image), image, i, bs)
    {
      hide Geometry.Valid, Geometry.ByteSector, Geometry.ByteOffset, Geometry.FatBytes, FatPoked;
      ImageIsDisk();
      PokeInSector(g, image, i, bs);
      var o := g.ByteOffset(i);
      forall k | 0 <= k < |bs| { win[o + k] := bs[k]; }
      wflag := true;
      assert win[..] == Overwrite(image[winsect], o, bs);
      image := WriteBack(g, image, winsect, win[..]);
      assert image == WriteBack(g, disk, winsect, win[..]);
    }

    /** One byte of the FAT through the window. */
    method ReadFatByte(bc: nat) returns (b: byte)
      requires Valid() && bc < g.FatBytes()
      modifies this`disk, this`winsect, this`wflag, win
      ensures Valid()
      ensures b == FatByte(g, image, bc)
      ensures g.fatbase <= winsect < g.fatbase + g.fsize
    {
      hide *;
      ImageIsDisk();
      FatByteAt(g, image, bc);
      MoveWindow(g.ByteSector(bc));
      b := win[g.ByteOffset(bc)];
    }

    method GetFat12(clst: nat) returns (v: nat)
      requires Valid() && g.fatType == Fat12 && 2 <= clst < g.nFatent
      modifies this`disk, this`winsect, this`wflag, win
      ensures Valid()
      ensures v == Entry(g, image, clst)
      ensures g.fatbase <= winsect < g.fatbase + g.fsize
    {
      hide *;
      ImageIsDisk();
      Entry12(g, image, clst);
      var bc := clst + clst / 2;
      var lo := ReadFatByte(bc);
      var hi := ReadFatByte(bc + 1);
      v := Value12(clst, lo, hi);
    }

    method GetFat(clst: nat) returns (v: nat)
      requires Valid()
      modifies this`disk, this`winsect, this`wflag, win
      ensures Valid()
      ensures v == if 2 <= clst < g.nFatent then Fat()[clst] else 1
      ensures 2 <= clst < g.nFatent ==> g.fatbase <= winsect < g.fatbase + g.fsize
      ensures !(2 <= clst < g.nFatent) ==> wflag == old(wflag) && winsect == old(winsect)
    {
      hide *;
      ImageIsDisk();
      if clst < 2 || clst >= g.nFatent {
        return 1;
      }
      match g.fatType {
        case Fat12 =>
          v := GetFat12(clst);
        case Fat16 =>
          Fat16At(g, image, clst);
          MoveWindow(g.RecordSector(clst, 2));
          v := LdWord(win[..], g.ByteOffset(clst * 2));
        case Fat32 =>
          Fat32At(g, image, clst);
          MoveWindow(g.RecordSector(clst, 4));
          v := LdDword(win[..], g.ByteOffset(clst * 4)) % 0x1000_0000;
      }
    }

    /** One byte of a 12-bit entry: bring its sector into the window and patch it. */
    method PutByte12(bc: nat, clst: nat, val: nat, high: bool)
      requires Valid() && bc < g.FatBytes()
      modifies this`disk, this`winsect, this`wflag, this`image, win
      ensures Valid()
      ensures FatPoked(g, old(image), image, bc, [Half12(clst, val, old(FatByte(g, image, bc)), high)])
      ensures g.fatbase <= winsect < g.fatbase + g.fsize
    {
      hide *;
      ImageIsDisk();
      FatByteAt(g, image, bc);
      MoveWindow(g.ByteSector(bc));
      PokeFat(bc, [Half12(clst, val, win[g.ByteOffset(bc)], high)]);
    }

    method PutFat12(clst: nat, val: nat)
      requires Valid() && g.fatType == Fat12 && 2 <= clst < g.nFatent
      modifies this`disk, this`winsect, this`wflag, this`image, win
      ensures Valid()
      ensures FatStored(g, old(image), image, clst, val)
      ensures g.fatbase <= winsect < g.fatbase + g.fsize
    {
      hide *;
      ImageIsDisk();
      EntryFits(g, clst);
      var bc := clst + clst / 2;
      PutByte12(bc, clst, val, false);
      ghost var middle: seq<Sector> := image;
      PutByte12(bc + 1, clst, val, true);
      Store12(g, old(image), middle, image, clst, val);
    }

    method PutFat16(clst: nat, val: nat)
      requires Valid() && g.fatType == Fat16 && 2 <= clst < g.nFatent
      modifies this`disk, this`winsect, this`wflag, this`image, win
      ensures Valid()
      ensures FatStored(g, old(image), image, clst, val)
      ensures g.fatbase <= winsect < g.fatbase + g.fsize
    {
      hide *;
      ImageIsDisk();
      EntryFits(g, clst);
      Fat16At(g, image, clst);
      EntryInOneSector(g, clst, 2, 0);
      MoveWindow(g.RecordSector(clst, 2));
      PokeFat(clst * 2, [Byte(val, 0), Byte(val, 1)]);
      Store16(g, old(image), image, clst, val);
    }

    method PutFat32(clst: nat, val: nat)
      requires Valid() && g.fatType == Fat32 && 2 <= clst < g.nFatent
      modifies this`disk, this`winsect, this`wflag, this`image, win
      ensures Valid()
      ensures FatStored(g, old(image), image, clst, val)
      ensures val < 0x1000_0000 ==> ReservedKept(g, old(image), image)
      ensures g.fatbase <= winsect < g.fatbase + g.fsize
    {
      hide *;
      ImageIsDisk();
      EntryFits(g, clst);
      Fat32At(g, image, clst);
      EntryInOneSector(g, clst, 4, 0);
      MoveWindow(g.RecordSector(clst, 4));
      var top := Top32(val, win[g.ByteOffset(clst * 4) + 3]);
      if val < 0x1000_0000 { Top32Keeps(val, win[g.ByteOffset(clst * 4) + 3]); }
      PokeFat(clst * 4, [Byte(val, 0), Byte(val, 1), Byte(val, 2), top]);
      Store32(g, old(image), image, clst, val, top);
    }

    method PutFat(clst: nat, val: nat) returns (res: Status)
      requires Valid()
      modifies this`disk, this`winsect, this`wflag, this`image, win
      ensures Valid()
      ensures res == if 2 <= clst < g.nFatent then Ok else IntErr
      ensures res == Ok ==> Fat() == old(Fat())[clst := val % g.EntrySpan()]
      ensures res == Ok && g.fatType == Fat32 && val < 0x1000_0000 ==> ReservedKept(g, old(image), image)
      ensures SameOutsideFat(g, old(image), image)
      ensures old(MirrorsAgree(g, image)) ==> MirrorsAgree(g, image)
      ensures res == Ok ==> g.fatbase <= winsect < g.fatbase + g.fsize
      ensures res != Ok ==> image == old(image) && winsect == old(winsect) && wflag == old(wflag)
    {
      if clst < 2 || clst >= g.nFatent {
        return IntErr;
      }
      match g.fatType {
        case Fat12 => PutFat12(clst, val);
        case Fat16 => PutFat16(clst, val);
        case Fat32 => PutFat32(clst, val);
      }
      return Ok;
    }
  }

  /** A FAT16 or FAT32 entry never straddles two sectors. */
  lemma EntryInOneSector(g: Geometry, c: nat, w: nat, k: nat)
    requires g.Valid() && w in {2, 4} && k < w
    ensures g.ByteOffset(c * w) + w <= g.ss
    ensures g.ByteSector(c * w + k) == g.RecordSector(c, w)
    ensures g.ByteOffset(c * w + k) == g.ByteOffset(c * w) + k
  {
    assert g.ss == w * (g.ss / w);
    RecordInBlock(c, w, g.ss / w, k);
  }

  lemma FatByteAt(g: Geometry, d: seq<Sector>, i: nat)
    requires g.Valid() && IsDisk(g, d) && i < g.FatBytes()
    ensures 1 <= g.fatbase <= g.ByteSector(i) < g.fatbase + g.fsize && g.ByteSector(i) < |d|
    ensures g.ByteOffset(i) < |d[g.ByteSector(i)]| == g.ss
    ensures d[g.ByteSector(i)][g.ByteOffset(i)] == FatByte(g, d, i)
  {
    FatByteInRange(g, i);
  }

  /** Byte k of a w-byte entry, found in the sector that holds the entry. */
  lemma RecordByteAt(g: Geometry, d: seq<Sector>, c: nat, w: nat, k: nat)
    requires g.Valid() && IsDisk(g, d) && w in {2, 4} && k < w && c * w + k < g.FatBytes()
    ensures 1 <= g.fatbase <= g.RecordSector(c, w) < g.fatbase + g.fsize && g.RecordSector(c, w) < |d|
    ensures g.ByteOffset(c * w) + w <= |d[g.RecordSector(c, w)]| == g.ss
    ensures d[g.RecordSector(c, w)][g.ByteOffset(c * w) + k] == FatByte(g, d, c * w + k)
  {
    EntryInOneSector(g, c, w, k);
    FatByteAt(g, d, c * w + k);
    hide Geometry.Valid, Geometry.ByteSector, Geometry.ByteOffset, Geometry.RecordSector, Geometry.FatBytes, FatByte;
  }

  lemma Fat16At(g: Geometry, d: seq<Sector>, c: nat)
    requires g.Valid() && IsDisk(g, d) && c < g.nFatent && g.fatType == Fat16
    ensures 1 <= g.fatbase <= g.RecordSector(c, 2) < g.fatbase + g.fsize && g.RecordSector(c, 2) < |d|
    ensures g.ByteOffset(c * 2) + 2 <= |d[g.RecordSector(c, 2)]| == g.ss
    ensures LdWord(d[g.RecordSector(c, 2)], g.ByteOffset(c * 2)) == Entry(g, d, c)
  {
    assert g.ss >= 512;
    EntryFits(g, c);
    hide Geometry.Valid, Geometry.ByteOffset, Geometry.RecordSector, Geometry.FatBytes, FatByte, IsDisk, Pair, Quad;
    RecordByteAt(g, d, c, 2, 0);
    RecordByteAt(g, d, c, 2, 1);
  }

  lemma Fat32At(g: Geometry, d: seq<Sector>, c: nat)
    requires g.Valid() && IsDisk(g, d) && c < g.nFatent && g.fatType == Fat32
    ensures 1 <= g.fatbase <= g.RecordSector(c, 4) < g.fatbase + g.fsize && g.RecordSector(c, 4) < |d|
    ensures g.ByteOffset(c * 4) + 4 <= |d[g.RecordSector(c, 4)]| == g.ss
    ensures LdDword(d[g.RecordSector(c, 4)], g.ByteOffset(c * 4)) % 0x1000_0000 == Entry(g, d, c)
    ensures d[g.RecordSector(c, 4)][g.ByteOffset(c * 4) + 3] / 16 == Reserved(g, d, c)
  {
    assert g.ss >= 512;
    EntryFits(g, c);
    hide Geometry.Valid, Geometry.ByteOffset, Geometry.RecordSector, Geometry.FatBytes, FatByte, IsDisk, Pair, Quad;
    RecordByteAt(g, d, c, 4, 0);
    RecordByteAt(g, d, c, 4, 1);
    RecordByteAt(g, d, c, 4, 2);
    RecordByteAt(g, d, c, 4, 3);
  }

  /** e is d with entry c of the FAT changed to val, reduced to the entry width, and nothing else. */
  ghost predicate FatStored(g: Geometry, d: seq<Sector>, e: seq<Sector>, c: nat, val: nat)
    requires g.Valid() && IsDisk(g, d) && c < g.nFatent
  {
    && IsDisk(g, e)
    && Table(g, e) == Table(g, d)[c := val % g.EntrySpan()]
    && SameOutsideFat(g, d, e)
    && (MirrorsAgree(g, d) ==> MirrorsAgree(g, e))
  }

  /** The two bytes put_fat stores for a 12-bit entry: the neighbour's nibble of p is kept. */
  function Low12(c: nat, val: nat, p: byte): byte {
    if c % 2 == 1 then p % 16 + val % 16 * 16 else val % 0x100
  }

  function High12(c: nat, val: nat, p: byte): byte {
    if c % 2 == 1 then val / 16 % 0x100 else p / 16 * 16 + val / 0x100 % 16
  }

  function Half12(c: nat, val: nat, p: byte, high: bool): byte {
    if high then High12(c, val, p) else Low12(c, val, p)
  }

  /** The 12-bit value at index c of two bytes. */
  function Value12(c: nat, b0: byte, b1: byte): nat {
    if c % 2 == 1 then Pair(b0, b1) / 16 else Pair(b0, b1) % 0x1000
  }

  lemma NibblesOdd(c: nat, val: nat, p: byte, q: byte)
    requires c % 2 == 1
    ensures Value12(c, Low12(c, val, p), High12(c, val, q)) == val % 0x1000
    ensures Low12(c, val, p) % 16 == p % 16
  {
    hide Pair;
    Pair12(Low12(c, val, p), High12(c, val, q));
    DivModUnique(Low12(c, val, p), val % 16, p % 16, 16);
    ModSplit(val, 16, 0x100);
  }

  lemma NibblesEven(c: nat, val: nat, p: byte, q: byte)
    requires c % 2 == 0
    ensures Value12(c, Low12(c, val, p), High12(c, val, q)) == val % 0x1000
    ensures High12(c, val, q) / 16 == q / 16
  {
    hide Pair;
    Pair12(Low12(c, val, p), High12(c, val, q));
    DivModUnique(High12(c, val, q), q / 16, val / 0x100 % 16, 16);
    ModSplit(val, 0x100, 16);
  }

  lemma Value12Depends(c: nat, b0: byte, b1: byte, b2: byte)
    ensures c % 2 == 0 && b1 % 16 == b2 % 16 ==> Value12(c, b0, b1) == Value12(c, b0, b2)
    ensures c % 2 == 1 && b1 / 16 == b2 / 16 ==> Value12(c, b1, b0) == Value12(c, b2, b0)
  {
    hide Pair;
    Pair12(b0, b1);
    Pair12(b0, b2);
    Pair12(b1, b0);
    Pair12(b2, b0);
  }

  lemma Entry12(g: Geometry, d: seq<Sector>, c: nat)
    requires g.Valid() && IsDisk(g, d) && c < g.nFatent && g.fatType == Fat12
    ensures c + c / 2 + 1 < g.FatBytes()
    ensures Entry(g, d, c) == Value12(c, FatByte(g, d, c + c / 2), FatByte(g, d, c + c / 2 + 1))
  {
    EntryFits(g, c);
  }

  /** Entry k after the two byte stores for entry c. */
  lemma Store12At(g: Geometry, d: seq<Sector>, m: seq<Sector>, e: seq<Sector>, c: nat, val: nat, k: nat)
    requires g.Valid() && IsDisk(g, d) && c < g.nFatent && k < g.nFatent && g.fatType == Fat12
    requires c + c / 2 + 1 < g.FatBytes()
    requires FatPoked(g, d, m, c + c / 2, [Half12(c, val, FatByte(g, d, c + c / 2), false)])
    requires FatPoked(g, m, e, c + c / 2 + 1, [Half12(c, val, FatByte(g, m, c + c / 2 + 1), true)])
    ensures Entry(g, e, k) == if k == c then val % 0x1000 else Entry(g, d, k)
  {
    hide Geometry.Valid, Geometry.FatBytes, FatByte, IsDisk, Pair, Value12, Low12, High12, Entry, MirrorsAgree,
         SameOutsideFat;
    var bc := c + c / 2;
    Entry12(g, d, k);
    Entry12(g, e, k);
    if c % 2 == 1 {
      NibblesOdd(c, val, FatByte(g, d, bc), FatByte(g, m, bc + 1));
    } else {
      NibblesEven(c, val, FatByte(g, d, bc), FatByte(g, m, bc + 1));
    }
    Value12Depends(k, FatByte(g, e, k + k / 2), FatByte(g, e, k + k / 2 + 1), FatByte(g, d, k + k / 2 + 1));
    Value12Depends(k, FatByte(g, e, k + k / 2 + 1), FatByte(g, e, k + k / 2), FatByte(g, d, k + k / 2));
  }

  lemma Store12(g: Geometry, d: seq<Sector>, m: seq<Sector>, e: seq<Sector>, c: nat, val: nat)
    requires g.Valid() && IsDisk(g, d) && c < g.nFatent && g.fatType == Fat12
    requires c + c / 2 + 1 < g.FatBytes()
    requires FatPoked(g, d, m, c + c / 2, [Half12(c, val, FatByte(g, d, c + c / 2), false)])
    requires FatPoked(g, m, e, c + c / 2 + 1, [Half12(c, val, FatByte(g, m, c + c / 2 + 1), true)])
    ensures FatStored(g, d, e, c, val)
  {
    hide Geometry.Valid, Geometry.FatBytes, FatByte, IsDisk, Half12, Entry, MirrorsAgree;
    var t := Table(g, d)[c := val % g.EntrySpan()];
    forall k | 0 <= k < g.nFatent ensures Entry(g, e, k) == t[k] { Store12At(g, d, m, e, c, val, k); }
    assert Table(g, e) == t;
  }

  lemma Store16(g: Geometry, d: seq<Sector>, e: seq<Sector>, c: nat, val: nat)
    requires g.Valid() && IsDisk(g, d) && c < g.nFatent && g.fatType == Fat16
    requires FatPoked(g, d, e, c * 2, [Byte(val, 0), Byte(val, 1)])
    ensures FatStored(g, d, e, c, val)
  {
    var t := Table(g, d)[c := val % g.EntrySpan()];
    forall k | 0 <= k < g.nFatent ensures Entry(g, e, k) == t[k] {
      EntryFits(g, k);
      Digits16(val);
      hide Geometry.Valid, Geometry.FatBytes, FatByte, IsDisk, Pair, Byte;
    }
    assert Table(g, e) == t;
  }

  /** The top byte put_fat stores for a 32-bit entry: the four reserved bits of old are or-ed in. */
  function Top32(val: nat, top: byte): (b: byte)
    ensures b % 16 == Byte(val, 3) % 16
  {
    var v := val / 0x1000_0000 % 16;
    var r := ((v as bv4) | ((top / 16) as bv4)) as int;
    r * 16 + Byte(val, 3) % 16
  }

  lemma Top32Keeps(val: nat, top: byte)
    requires val < 0x1000_0000
    ensures Top32(val, top) / 16 == top / 16
  {
    assert val / 0x1000_0000 % 16 == 0;
    var h := (top / 16) as bv4;
    assert (0 as bv4) | h == h;
  }

  /** The four reserved bits above a 28-bit entry. */
  ghost function Reserved(g: Geometry, d: seq<Sector>, c: nat): nat
    requires g.Valid() && IsDisk(g, d) && c < g.nFatent && g.fatType == Fat32
  {
    EntryFits(g, c);
    FatByte(g, d, c * 4 + 3) / 16
  }

  /** No entry's reserved bits changed. */
  ghost predicate ReservedKept(g: Geometry, d: seq<Sector>, e: seq<Sector>) {
    && g.Valid() && IsDisk(g, d) && IsDisk(g, e) && g.fatType == Fat32
    && forall c | 0 <= c < g.nFatent :: Reserved(g, d, c) == Reserved(g, e, c)
  }

  lemma Reserved32(g: Geometry, d: seq<Sector>, e: seq<Sector>, c: nat, val: nat, top: byte)
    requires g.Valid() && IsDisk(g, d) && c < g.nFatent && g.fatType == Fat32
    requires FatPoked(g, d, e, c * 4, [Byte(val, 0), Byte(val, 1), Byte(val, 2), top])
    ensures top / 16 == Reserved(g, d, c) ==> ReservedKept(g, d, e)
  {
    hide Geometry.Valid, Geometry.FatBytes, FatByte, IsDisk, Byte;
    forall k | 0 <= k < g.nFatent ensures top / 16 == Reserved(g, d, c) ==> Reserved(g, d, k) == Reserved(g, e, k) {
      EntryFits(g, k);
    }
  }

  lemma Store32(g: Geometry, d: seq<Sector>, e: seq<Sector>, c: nat, val: nat, top: byte)
    requires g.Valid() && IsDisk(g, d) && c < g.nFatent && g.fatType == Fat32
    requires top % 16 == Byte(val, 3) % 16
    requires FatPoked(g, d, e, c * 4, [Byte(val, 0), Byte(val, 1), Byte(val, 2), top])
    ensures FatStored(g, d, e, c, val)
    ensures top / 16 == Reserved(g, d, c) ==> ReservedKept(g, d, e)
  {
    Reserved32(g, d, e, c, val, top);
    var t := Table(g, d)[c := val % g.EntrySpan()];
    forall k | 0 <= k < g.nFatent ensures Entry(g, e, k) == t[k] {
      EntryFits(g, k);
      Digits28(val);
      QuadLow28(Byte(val, 0), Byte(val, 1), Byte(val, 2), top);
      hide Geometry.Valid, Geometry.FatBytes, FatByte, IsDisk, Quad, Byte;
    }
    assert Table(g, e) == t;
  }
}
