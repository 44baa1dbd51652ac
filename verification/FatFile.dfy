// One open file: the sector buffer, the read and write loops and seeking
// (dfs/ff.c: f_read, f_write, f_lseek).
module FatFile {
  import opened Words
  import opened FatVolume
  import opened FatChain
  import opened FatAlloc
  import opened FatData
  import opened FatIsolation
  import opened FatLinkMap

  /** chain is the file's cluster chain; a file without clusters starts at cluster 0. */
  ghost predicate ChainState(t: Fat, sclust: int, chain: seq<nat>) {
    if sclust == 0 then chain == [] else IsChainFrom(t, sclust, chain)
  }

  /** The volume's image with the file's own dirty sector laid over it. */
  ghost function ViewOf(image: seq<Sector>, dirty: bool, dsect: int, b: Sector): seq<Sector> {
    if dirty && 0 <= dsect < |image| then image[dsect := b] else image
  }

  /** What the sector buffer holds: a dirty one belongs to place (q, r) of the file, a clean one mirrors its sector. */
  ghost predicate BufState(g: Geometry, image: seq<Sector>, chain: seq<nat>, dirty: bool, dsect: int, b: Sector,
                           q: int, r: int) {
    && |b| == g.ss
    && (dirty ==> 0 <= q < |chain| && 0 <= r < g.csize && dsect == SectorAt(g, chain, q, r))
    && (!dirty && dsect != 0 ==> g.database <= dsect < |image| && b == image[dsect])
  }

  /** The volume's window shows no sector of the file. */
  ghost predicate WindowApart(g: Geometry, chain: seq<nat>, winsect: int) {
    forall q, r | 0 <= q < |chain| && 0 <= r < g.csize :: SectorAt(g, chain, q, r) != winsect
  }

  lemma ChainIsGood(g: Geometry, t: Fat, sclust: int, chain: seq<nat>)
    requires ChainState(t, sclust, chain) && |t| == g.nFatent
    ensures GoodChain(g, chain)
  {
    if sclust != 0 {
      ChainDistinct(t, chain);
      forall q | 0 <= q < |chain| ensures 2 <= chain[q] < g.nFatent {
        assert InRange(t, chain[q]);
      }
    }
  }

  /** clst is the cluster that holds byte p - 1. */
  ghost predicate ClustOf(g: Geometry, chain: seq<nat>, p: int, clst: int)
    requires g.ss > 0 && g.csize > 0 && p > 0
  {
    var q := ClusterIndex(g, p - 1);
    0 <= q < |chain| && chain[q] == clst
  }

  /** sect is the sector that holds byte p. */
  ghost predicate SectOf(g: Geometry, chain: seq<nat>, p: int, sect: int)
    requires g.ss > 0 && g.csize > 0 && p >= 0
  {
    var q := ClusterIndex(g, p);
    0 <= q < |chain| && SectorAt(g, chain, q, SectorIndex(g, p)) == sect
  }

  /** What create_chain does when asked to go on from cluster k of the file (or to start the file). */
  lemma CreateOnChain(t: Fat, hint: nat, sclust: int, chain: seq<nat>, c: nat, k: int, r: nat, u: Fat, mark: nat)
    requires |t| >= 3 && mark >= |t| && WellFormed(t) && ChainState(t, sclust, chain)
    requires if |chain| == 0 then c == 0 else 0 <= k < |chain| && c == chain[k]
    requires Created(t, hint, c, r, u, mark)
    ensures |u| == |t| && r != 1 && r < |t| && (c == 0 <==> |chain| == 0)
    ensures 0 < |chain| && k < |chain| - 1 ==> r == chain[k + 1] >= 2 && u == t
    ensures !(0 < |chain| && k < |chain| - 1) && r == 0 ==> u == t && FreeCount(u) == 0
    ensures !(0 < |chain| && k < |chain| - 1) && r != 0 ==>
              2 <= r < |t| && u != t && ChainState(u, if |chain| == 0 then r else sclust, chain + [r])
    ensures |chain| == 0 ==> sclust == 0
  {
    hide IsChain, WellFormed, ScanAnswer, FreeCount;
    WellFormedNoOnes(t);
    if |chain| > 0 {
      ChainStep(t, chain, k);
      NonEmpty(t, chain);
    }
    if !(0 < |chain| && k < |chain| - 1) {
      ScanComplete(t, if c == 0 then StartHint(|t|, hint) else c, r);
      if r != 0 {
        assert u[r] == mark;
        if |chain| == 0 {
          OneCluster(u, r);
          assert chain + [r] == [r];
        } else {
          CreateChains(t, c, r, mark, chain);
        }
      }
    }
  }

  /** A change of the FAT area alone leaves the file's data and buffer as they were. */
  lemma KeepState(g: Geometry, d: seq<Sector>, e: seq<Sector>, chain: seq<nat>, dirty: bool, dsect: int, b: Sector,
                  q: int, r: int, content: seq<byte>)
    requires g.Valid() && IsDisk(g, d) && IsDisk(g, e) && SameOutsideFat(g, d, e) && GoodChain(g, chain)
    requires BufState(g, d, chain, dirty, dsect, b, q, r) && Represents(g, chain, ViewOf(d, dirty, dsect, b), content)
    ensures BufState(g, e, chain, dirty, dsect, b, q, r)
    ensures Represents(g, chain, ViewOf(e, dirty, dsect, b), content)
  {
    hide Geometry.Valid, IsDisk, GoodChain, Represents, SectorAt;
    FatBelowData(g);
    if dirty { SectorInData(g, chain, q, r); }
    RepresentsFrame(g, chain, ViewOf(d, dirty, dsect, b), ViewOf(e, dirty, dsect, b), content);
  }

  lemma FatBelowData(g: Geometry)
    requires g.Valid()
    ensures 1 <= g.fatbase && g.fatbase + g.fsize <= g.FatEnd() <= g.database
  {
  }

  /** The same when the chain grows by cluster c: the content grows by whatever c's sectors hold. */
  lemma GrowState(g: Geometry, d: seq<Sector>, e: seq<Sector>, chain: seq<nat>, c: nat, dirty: bool, dsect: int,
                  b: Sector, q: int, r: int, content: seq<byte>) returns (more: seq<byte>)
    requires g.Valid() && IsDisk(g, d) && IsDisk(g, e) && SameOutsideFat(g, d, e) && GoodChain(g, chain + [c])
    requires BufState(g, d, chain, dirty, dsect, b, q, r) && Represents(g, chain, ViewOf(d, dirty, dsect, b), content)
    ensures BufState(g, e, chain + [c], dirty, dsect, b, q, r)
    ensures Represents(g, chain + [c], ViewOf(e, dirty, dsect, b), content + more)
  {
    hide Geometry.Valid, IsDisk, GoodChain, Represents, SectorAt;
    GoodPrefix(g, chain, c);
    KeepState(g, d, e, chain, dirty, dsect, b, q, r, content);
    if dirty { SectorOfPrefix(g, chain, c, q, r); }
    var view := ViewOf(e, dirty, dsect, b);
    ViewIsDisk(g, e, dirty, dsect, b);
    AppendCluster(g, chain, c, view, content);
    var s := SectorAt(g, chain + [c], |chain|, 0);
    more := Flat(view[s..s + g.csize]);
  }

  lemma ViewIsDisk(g: Geometry, d: seq<Sector>, dirty: bool, dsect: int, b: Sector)
    requires IsDisk(g, d) && |b| == g.ss
    ensures IsDisk(g, ViewOf(d, dirty, dsect, b))
  {
  }

  /** A window on the FAT is apart from every file. */
  lemma FatWindowApart(g: Geometry, chain: seq<nat>, winsect: int)
    requires g.Valid() && GoodChain(g, chain) && winsect < g.fatbase + g.fsize
    ensures WindowApart(g, chain, winsect)
  {
    hide Geometry.Valid, GoodChain, SectorAt;
    FatBelowData(g);
    forall q, r | 0 <= q < |chain| && 0 <= r < g.csize ensures SectorAt(g, chain, q, r) != winsect {
      SectorInData(g, chain, q, r);
    }
  }

  /** What a part of f_write keeps and adds: from byte p on it stored n bytes, and nothing else below size changed. */
  ghost predicate Advanced(before: seq<byte>, after: seq<byte>, size: int, p: int, n: int, data: seq<byte>) {
    && 0 <= size <= |before| <= |after| && 0 <= p <= |before| && 0 <= n <= |data| && p + n <= |after|
    && after[..p] == before[..p]
    && after[p..p + n] == data[..n]
    && (forall i | p + n <= i < size :: after[i] == before[i])
  }

  lemma OverwriteAdvances(before: seq<byte>, size: int, p: int, n: int, data: seq<byte>)
    requires 0 <= size <= |before| && 0 <= p && 0 <= n <= |data| && p + n <= |before|
    ensures Advanced(before, Overwrite(before, p, data[..n]), size, p, n, data)
  {
  }

  lemma EdgeAdvances(before: seq<byte>, after: seq<byte>, size: int, p: int, n: int, data: seq<byte>)
    requires 0 <= size <= |before| == |after| && 0 <= p && 0 <= n <= |data| && p + n <= |after| && size <= p
    requires after[..p + n] == before[..p] + data[..n]
    ensures Advanced(before, after, size, p, n, data)
  {
    var kept := after[..p + n];
    assert after[..p] == kept[..p] && after[p..p + n] == kept[p..];
  }

  lemma GrowthAdvances(before: seq<byte>, mid: seq<byte>, after: seq<byte>, size: int, p: int, n: int, data: seq<byte>)
    requires before <= mid && 0 <= size <= |before| && 0 <= p <= |before| && Advanced(mid, after, size, p, n, data)
    ensures Advanced(before, after, size, p, n, data)
  {
    assert forall i | 0 <= i < |before| :: before[i] == mid[i];
  }

  lemma NothingAdvances(before: seq<byte>, size: int, p: int, data: seq<byte>)
    requires 0 <= size <= |before| && 0 <= p <= |before|
    ensures Advanced(before, before, size, p, 0, data)
  {
  }

  /** old with d stored at p, p at most its length; the result may be longer. */
  ghost function Splice(before: seq<byte>, p: int, d: seq<byte>): seq<byte>
    requires 0 <= p <= |before|
  {
    before[..p] + d + (if p + |d| <= |before| then before[p + |d|..] else [])
  }

  /** Splicing byte by byte: the data at its place, and every other byte as it was. */
  lemma SpliceAt(before: seq<byte>, p: int, d: seq<byte>)
    requires 0 <= p <= |before|
    ensures |Splice(before, p, d)| == if p + |d| > |before| then p + |d| else |before|
    ensures forall i | 0 <= i < |Splice(before, p, d)| ::
              Splice(before, p, d)[i] == if p <= i < p + |d| then d[i - p] else before[i]
  {
  }

  lemma SpliceNothing(c: seq<byte>, p: int, data: seq<byte>)
    requires 0 <= p <= |c|
    ensures Splice(c, p, data[..0]) == c
  {
  }

  lemma AdvanceMore(a: seq<byte>, b: seq<byte>, c: seq<byte>, size: int, p: int, n: int, m: int, data: seq<byte>)
    requires 0 <= n <= |data| && Advanced(a, b, size, p, n, data) && Advanced(b, c, size, p + n, m, data[n..])
    ensures Advanced(a, c, size, p, n + m, data)
  {
    assert c[..p] == c[..p + n][..p] && b[..p] == b[..p + n][..p];
    assert c[p..p + n] == c[..p + n][p..] && b[p..p + n] == b[..p + n][p..];
    assert c[p..p + n + m] == c[p..p + n] + c[p + n..p + n + m];
    assert data[..n + m] == data[..n] + data[n..][..m];
  }

  lemma AdvancedSplice(a: seq<byte>, c: seq<byte>, size: int, p: int, n: int, data: seq<byte>)
    requires 0 <= p <= size && Advanced(a, c, size, p, n, data)
    ensures size <= |a| && var top := if p + n > size then p + n else size;
            top <= |c| && c[..top] == Splice(a[..size], p, data[..n])
  {
    var top := if p + n > size then p + n else size;
    assert c[..top] == c[..p] + c[p..p + n] + c[p + n..top];
    assert c[p + n..top] == if p + n <= size then a[..size][p + n..] else [];
  }

  lemma GuardIs(fsize: dword, n: nat)
    requires n < 0x1_0000_0000
    ensures (fsize + n) % 0x1_0000_0000 < fsize <==> fsize + n >= 0x1_0000_0000
  {
  }

  /**
   * The outcome of a seek to p inside the file, as a function of the state before: the cluster of byte p - 1,
   * and, off a sector boundary, the sector of byte p in the buffer.
   */
  ghost predicate Sought(g: Geometry, chain: seq<nat>, content: seq<byte>, p: int,
                         clust: int, dsect: int, dirty: bool, b: Sector,
                         clust': int, dsect': int, dirty': bool, b': Sector)
    requires g.ss > 0 && g.csize > 0 && p >= 0
  {
    && (if p == 0 then clust' == clust else ClustOf(g, chain, p, clust'))
    && if p % g.ss != 0 && !SectOf(g, chain, p, dsect)
       then SectOf(g, chain, p, dsect') && !dirty' && p - p % g.ss + g.ss <= |content|
            && b' == content[p - p % g.ss..p - p % g.ss + g.ss]
       else dsect' == dsect && dirty' == dirty && b' == b
  }

  /** Two seeks to the same place from the same state end in the same state. */
  lemma SoughtUnique(g: Geometry, chain: seq<nat>, content: seq<byte>, p: int, clust: int, dsect: int, dirty: bool,
                     b: Sector, clust1: int, dsect1: int, dirty1: bool, b1: Sector,
                     clust2: int, dsect2: int, dirty2: bool, b2: Sector)
    requires g.ss > 0 && g.csize > 0 && p >= 0
    requires Sought(g, chain, content, p, clust, dsect, dirty, b, clust1, dsect1, dirty1, b1)
    requires Sought(g, chain, content, p, clust, dsect, dirty, b, clust2, dsect2, dirty2, b2)
    ensures clust1 == clust2 && dsect1 == dsect2 && dirty1 == dirty2 && b1 == b2
  {
  }

  lemma ChainInUse(t: Fat, sclust: int, chain: seq<nat>)
    requires ChainState(t, sclust, chain)
    ensures InUse(t, chain)
  {
    hide IsChain;
    if sclust != 0 {
      forall i | 0 <= i < |chain| ensures InRange(t, chain[i]) && t[chain[i]] != 0 { ChainStep(t, chain, i); }
    }
  }

  lemma PatchedIs(a: Sector, o: nat, bs: seq<byte>, b: Sector)
    requires o + |bs| <= |a| == |b|
    requires forall i | 0 <= i < |a| :: b[i] == if o <= i < o + |bs| then bs[i - o] else a[i]
    ensures b == Overwrite(a, o, bs)
  {
  }

  /** Changing the buffered sector changes that sector of the view, dirty before or not. */
  lemma ViewPatched(image: seq<Sector>, dirty: bool, dsect: int, a: Sector, b: Sector)
    requires 0 <= dsect < |image|
    ensures |ViewOf(image, dirty, dsect, a)| == |image|
    ensures ViewOf(image, true, dsect, b) == ViewOf(image, dirty, dsect, a)[dsect := b]
  {
  }

  lemma BufDirty(g: Geometry, image: seq<Sector>, chain: seq<nat>, dsect: int, b: Sector, q: int, r: int)
    requires |b| == g.ss && 0 <= q < |chain| && 0 <= r < g.csize && dsect == SectorAt(g, chain, q, r)
    ensures BufState(g, image, chain, true, dsect, b, q, r)
  {
  }

  class File {
    const fs: Volume
    const buf: array<byte>
    const readable: bool
    const writable: bool
    var fptr: dword
    var fsize: dword
    var sclust: dword
    var clust: dword
    var dsect: dword
    var dirty: bool
    var written: bool

    /** The file's clusters in order, and every byte they hold, the bytes after fsize included. */
    ghost var chain: seq<nat>
    ghost var content: seq<byte>
    ghost var dq: int
    ghost var dr: int

    /** A file as f_open leaves it: pointer at the start, nothing buffered. */
    constructor (fs: Volume, readable: bool, writable: bool, sclust: dword, fsize: dword, ghost chain: seq<nat>)
      requires fs.Valid() && WellFormed(fs.Fat()) && ChainState(fs.Fat(), sclust, chain)
      requires WindowApart(fs.g, chain, fs.winsect) && fsize <= Capacity(fs.g, chain)
      ensures Valid() && this.fs == fs && fresh(buf)
      ensures this.fptr == 0 && this.fsize == fsize && this.chain == chain && !dirty
      ensures this.readable == readable && this.writable == writable
    {
      hide Volume.Valid, Volume.Fat, Geometry.Valid, IsDisk, IsChain, WellFormed, ChainState, Represents, WindowApart,
           SectorAt, GoodChain, Capacity;
      this.fs := fs;
      this.readable := readable;
      this.writable := writable;
      this.sclust := sclust;
      this.fsize := fsize;
      this.fptr := 0;
      this.dsect := 0;
      this.clust := 0;
      this.dirty := false;
      this.written := false;
      this.buf := new byte[fs.g.ss];
      this.chain := chain;
      this.dq := 0;
      this.dr := 0;
      new;
      fs.ImageIsDisk();
      ChainIsGood(fs.g, fs.Fat(), sclust, chain);
      ghost var c := SomeContent(fs.g, chain, fs.image);
      RepresentsLength(fs.g, chain, fs.image, c);
      content := c;
    }

    /** The file between calls. */
    ghost predicate Valid()
      reads this`fptr, this`fsize, this`clust,
            this`sclust, this`chain, this`content, this`dirty, this`dsect, this`dq, this`dr, buf,
            fs`disk, fs`winsect, fs`wflag, fs`image, fs.win
    {
      Loop() && fptr <= fsize
    }

    /** The file inside a call: the pointer may have passed the recorded size. */
    ghost predicate Loop()
      reads this`fptr, this`fsize, this`clust,
            this`sclust, this`chain, this`content, this`dirty, this`dsect, this`dq, this`dr, buf,
            fs`disk, fs`winsect, fs`wflag, fs`image, fs.win
    {
      && Core()
      && 0 <= fptr <= |content| && fsize <= |content|
      && (fptr > 0 ==> ClustOf(fs.g, chain, fptr, clust))
      && (fptr % fs.g.ss != 0 ==> SectOf(fs.g, chain, fptr, dsect))
    }

    /** Everything but the file pointer. */
    ghost predicate Core()
      reads this`sclust, this`chain, this`content, this`dirty, this`dsect, this`dq, this`dr, buf,
            fs`disk, fs`winsect, fs`wflag, fs`image, fs.win
    {
      && fs.Valid()
      && buf != fs.win && buf.Length == fs.g.ss
      && WellFormed(fs.Fat())
      && ChainState(fs.Fat(), sclust, chain)
      && BufState(fs.g, fs.image, chain, dirty, dsect, buf[..], dq, dr)
      && Represents(fs.g, chain, ViewOf(fs.image, dirty, dsect, buf[..]), content)
      && WindowApart(fs.g, chain, fs.winsect)
    }

    /** What the operations on the file may change of the volume, and how. */
    ghost function Now(): Snap
      reads this`chain, fs`image, fs`freeClust, fs`lastClust, fs`fsiFlag
    {
      Snap(fs.image, fs.freeClust, fs.lastClust, fs.fsiFlag, chain)
    }

    lemma NowIs()
      ensures Now() == Snap(fs.image, fs.freeClust, fs.lastClust, fs.fsiFlag, chain)
    {
    }

    /** Doing nothing keeps everything. */
    lemma KeptNow()
      requires Core()
      ensures Kept(fs.g, Now(), Now())
    {
      hide Volume.Valid, Geometry.Valid, IsDisk, IsChain, Represents, WindowApart, BufState, WellFormed, Table;
      CoreFacts();
      ChainInUse(fs.Fat(), sclust, chain);
      fs.FatIsTable();
      KeptSame(fs.g, Now());
    }

    lemma CoreFacts()
      requires Core()
      ensures fs.Valid() && fs.g.Valid() && IsDisk(fs.g, fs.image) && |fs.image| == fs.size
      ensures fs.g.SectorCount() <= fs.size
      ensures GoodChain(fs.g, chain) && |content| == Capacity(fs.g, chain)
      ensures 1 <= fs.g.csize <= 128 && 512 <= fs.g.ss <= 4096 && buf.Length == fs.g.ss && buf != fs.win
    {
      hide Volume.Valid, Geometry.Valid, IsDisk, IsChain;
      fs.ImageIsDisk();
      ClusterSize(fs.g);
      ChainIsGood(fs.g, fs.Fat(), sclust, chain);
    }

    /** Write back the dirty sector buffer. */
    method FlushBuf()
      requires Core()
      modifies this`dirty, fs`disk, fs`image
      ensures Core() && !dirty
      ensures fs.Fat() == old(fs.Fat())
      ensures Kept(fs.g, old(Now()), Now())
    {
      hide Volume.Valid, Volume.Fat, Geometry.Valid, IsDisk, IsChain, WellFormed, ChainState, Represents, WindowApart,
           SectorAt, GoodChain, Blocks, Kept;
      if dirty {
        CoreFacts();
        FlushFacts();
        OneBlock(fs.image, dsect, buf[..], fs.g.ss);
        ghost var a := Now();
        ChainInUse(fs.Fat(), sclust, chain);
        fs.FatIsTable();
        fs.DiskWrite(dsect, 1, buf[..]);
        dirty := false;
        KeptBySector(fs.g, a, dsect, buf[..], dq, dr);
      } else {
        KeptNow();
      }
    }

    lemma FlushFacts()
      requires Core() && dirty
      ensures fs.g.database <= dsect < fs.size && dsect != fs.winsect
      ensures |buf[..]| == 1 * fs.g.ss
    {
      hide Volume.Valid, Geometry.Valid, IsDisk, IsChain, SectorAt;
      CoreFacts();
      SectorInData(fs.g, chain, dq, dr);
    }

    /** Load sector (q, r) of the file into a clean buffer. */
    method LoadBuf(sect: dword, ghost q: int, ghost r: int)
      requires Core() && !dirty
      requires 0 <= q < |chain| && 0 <= r < fs.g.csize && sect == SectorAt(fs.g, chain, q, r)
      modifies this`dsect, buf
      ensures Core() && dsect == sect
    {
      hide Volume.Valid, Volume.Fat, Geometry.Valid, IsDisk, IsChain, WellFormed, ChainState, Represents, WindowApart,
           SectorAt, GoodChain, Flat;
      CoreFacts();
      PlaceFacts(q, r);
      var data := fs.DiskRead(sect, 1);
      FlatOne(fs.image[sect..sect + 1]);
      forall i | 0 <= i < buf.Length { buf[i] := data[i]; }
      assert buf[..] == fs.image[sect];
      dsect := sect;
    }

    /** Place (q, r) of the file is a data sector the window does not show. */
    lemma PlaceFacts(q: int, r: int)
      requires Core() && 0 <= q < |chain| && 0 <= r < fs.g.csize
      ensures fs.g.database <= SectorAt(fs.g, chain, q, r) < fs.size && SectorAt(fs.g, chain, q, r) != fs.winsect
      ensures 1 <= fs.g.database && fs.size == |fs.image| <= 0x1_0000_0000
      ensures |fs.image[SectorAt(fs.g, chain, q, r)]| == fs.g.ss
    {
      hide Volume.Valid, Geometry.Valid, IsChain, SectorAt, WellFormed, ChainState, Represents;
      CoreFacts();
      ClusterSize(fs.g);
      SectorInData(fs.g, chain, q, r);
      fs.ImageIsDisk();
    }

    /** What the buffer shows is the sector's part of the content. */
    lemma BufShows(q: int, r: int)
      requires Core() && 0 <= q < |chain| && 0 <= r < fs.g.csize
      requires dsect == SectorAt(fs.g, chain, q, r)
      ensures 0 <= OffsetAt(fs.g, q, r) && OffsetAt(fs.g, q, r) + fs.g.ss <= |content|
      ensures buf[..] == content[OffsetAt(fs.g, q, r)..OffsetAt(fs.g, q, r) + fs.g.ss]
    {
      hide Volume.Valid, Geometry.Valid, IsChain, SectorAt, OffsetAt, WellFormed, ChainState, WindowApart;
      PlaceFacts(q, r);
      CoreFacts();
      assert Holds(fs.g, chain, ViewOf(fs.image, dirty, dsect, buf[..]), content, q, r);
    }

    /** Copy bs into the buffer that shows place (q, r), at offset o. */
    method PatchBuf(o: nat, bs: seq<byte>, ghost q: int, ghost r: int)
      requires Core() && 0 <= q < |chain| && 0 <= r < fs.g.csize
      requires dsect == SectorAt(fs.g, chain, q, r) && o + |bs| <= fs.g.ss
      modifies this`dirty, this`content, this`dq, this`dr, buf
      ensures Core() && dirty
      ensures 0 <= OffsetAt(fs.g, q, r) && OffsetAt(fs.g, q, r) + fs.g.ss <= |old(content)|
      ensures content == Overwrite(old(content), OffsetAt(fs.g, q, r) + o, bs)
    {
      hide *;
      CoreParts();
      CoreFacts();
      PlaceFacts(q, r);
      BufShows(q, r);
      ghost var view, shown := ViewOf(fs.image, dirty, dsect, buf[..]), buf[..];
      forall k | 0 <= k < |bs| { buf[o + k] := bs[k]; }
      PatchedIs(shown, o, bs, buf[..]);
      PutOne(fs.g, chain, view, content, q, r, buf[..]);
      OverwritePatched(content, OffsetAt(fs.g, q, r), fs.g.ss, o, bs);
      ViewPatched(fs.image, dirty, dsect, shown, buf[..]);
      content := Overwrite(content, OffsetAt(fs.g, q, r) + o, bs);
      dirty, dq, dr := true, q, r;
      BufDirty(fs.g, fs.image, chain, dsect, buf[..], q, r);
      MakeCore();
    }

    /** At the growing edge: take the buffer for place (q, r) without loading it, and start it with bs. */
    method ClaimBuf(sect: dword, bs: seq<byte>, ghost q: int, ghost r: int)
      requires Core() && !dirty && 0 <= q < |chain| && 0 <= r < fs.g.csize
      requires sect == SectorAt(fs.g, chain, q, r) && |bs| <= fs.g.ss
      modifies this`dirty, this`dsect, this`content, this`dq, this`dr, buf
      ensures Core() && dirty && dsect == sect
      ensures 0 <= OffsetAt(fs.g, q, r) && OffsetAt(fs.g, q, r) + fs.g.ss <= |old(content)| == |content|
      ensures content[..OffsetAt(fs.g, q, r) + |bs|] == old(content)[..OffsetAt(fs.g, q, r)] + bs
    {
      hide Volume.Valid, Volume.Fat, Geometry.Valid, IsDisk, IsChain, WellFormed, ChainState, Represents, WindowApart,
           SectorAt, GoodChain, OffsetAt, Overwrite;
      CoreFacts();
      PlaceFacts(q, r);
      forall k | 0 <= k < |bs| { buf[k] := bs[k]; }
      assert buf[..][..|bs|] == bs;
      PutOne(fs.g, chain, fs.image, content, q, r, buf[..]);
      OverwriteStart(content, OffsetAt(fs.g, q, r), buf[..], |bs|);
      content := Overwrite(content, OffsetAt(fs.g, q, r), buf[..]);
      dirty, dsect, dq, dr := true, sect, q, r;
    }

    /** Write n whole sectors of one cluster directly, and refresh a clean buffer they cover. */
    method DirectWrite(sect: dword, n: nat, data: seq<byte>, ghost q: int, ghost r: int)
      requires Core() && !dirty && 0 <= q < |chain| && 0 <= r && 0 < n && r + n <= fs.g.csize
      requires sect == SectorAt(fs.g, chain, q, r) && |data| == n * fs.g.ss
      modifies this`content, buf, fs`disk, fs`image
      ensures Core()
      ensures fs.Fat() == old(fs.Fat())
      ensures 0 <= OffsetAt(fs.g, q, r) && OffsetAt(fs.g, q, r) + |data| <= |old(content)|
      ensures content == Overwrite(old(content), OffsetAt(fs.g, q, r), data)
      ensures Kept(fs.g, old(Now()), Now())
    {
      hide Volume.Valid, Volume.Fat, Geometry.Valid, IsDisk, IsChain, WellFormed, ChainState, Represents, WindowApart,
           SectorAt, GoodChain, OffsetAt, Overwrite, Blocks, Block, Sub32, Kept;
      CoreFacts();
      RunFacts(q, r, n);
      PutRun(fs.g, chain, fs.image, content, q, r, n, data);
      ghost var a := Now();
      ChainInUse(fs.Fat(), sclust, chain);
      fs.FatIsTable();
      fs.DiskWrite(sect, n, data);
      KeptByRun(fs.g, a, sect, n, Blocks(data, n, fs.g.ss), q, r);
      content := Overwrite(content, OffsetAt(fs.g, q, r), data);
      Sub32Wraps(dsect, sect);
      var d := Sub32(dsect, sect);
      if d < n {
        var b := Block(data, n, fs.g.ss, d);
        BlocksAt(data, n, fs.g.ss, d);
        forall i | 0 <= i < buf.Length { buf[i] := b[i]; }
        assert buf[..] == b;
      }
    }

    /** The places (q, r) .. (q, r + n - 1) are data sectors the window does not show. */
    lemma RunFacts(q: int, r: int, n: nat)
      requires Core() && 0 <= q < |chain| && 0 <= r && 0 < n && r + n <= fs.g.csize
      ensures var s := SectorAt(fs.g, chain, q, r);
              fs.g.database <= s && s + n <= fs.size == |fs.image| <= 0x1_0000_0000 && !(s <= fs.winsect < s + n)
      ensures 1 <= fs.g.database
    {
      hide Volume.Valid, Geometry.Valid, IsChain, SectorAt, WellFormed, ChainState, Represents;
      PlaceFacts(q, r);
      PlaceFacts(q, r + n - 1);
      SectorRunFrom(fs.g, chain, q, r, r + n - 1);
      var s := SectorAt(fs.g, chain, q, r);
      var k := fs.winsect - s;
      if 0 <= k < n {
        PlaceFacts(q, r + k);
        SectorRunFrom(fs.g, chain, q, r, r + k);
      }
    }

    /** Read n whole sectors of one cluster directly, laying a dirty buffer over them. */
    method DirectRead(sect: dword, n: nat, ghost q: int, ghost r: int) returns (data: seq<byte>)
      requires Core() && 0 <= q < |chain| && 0 <= r && 0 < n && r + n <= fs.g.csize
      requires sect == SectorAt(fs.g, chain, q, r)
      ensures |data| == n * fs.g.ss
      ensures 0 <= OffsetAt(fs.g, q, r) && OffsetAt(fs.g, q, r) + |data| <= |content|
      ensures data == content[OffsetAt(fs.g, q, r)..OffsetAt(fs.g, q, r) + |data|]
    {
      hide Volume.Valid, Volume.Fat, Geometry.Valid, IsDisk, IsChain, WellFormed, ChainState, Represents, WindowApart,
           SectorAt, GoodChain, OffsetAt, Flat, Sub32, WithBlock;
      CoreFacts();
      RunFacts(q, r, n);
      data := fs.DiskRead(sect, n);
      FlatLengthOf(sect, n);
      Sub32Wraps(dsect, sect);
      var d := Sub32(dsect, sect);
      ghost var view := ViewOf(fs.image, dirty, dsect, buf[..]);
      if dirty && d < n {
        FlatReplace(fs.image[sect..sect + n], d, buf[..], fs.g.ss);
        assert view[sect..sect + n] == fs.image[sect..sect + n][d := buf[..]];
        data := WithBlock(data, n, fs.g.ss, d, buf[..]);
      } else {
        assert view[sect..sect + n] == fs.image[sect..sect + n];
      }
      GetRun(fs.g, chain, view, content, q, r, n);
      TimesIs(n, fs.g.ss);
    }

    lemma FlatLengthOf(s: nat, n: nat)
      requires fs.Valid() && s + n <= fs.size
      ensures |fs.image| == fs.size && |Flat(fs.image[s..s + n])| == n * fs.g.ss
      ensures var blocks := fs.image[s..s + n]; forall k | 0 <= k < |blocks| :: |blocks[k]| == fs.g.ss
    {
      hide Geometry.Valid, Flat;
      fs.ImageIsDisk();
      FlatLength(fs.image[s..s + n], fs.g.ss);
    }

    /** create_chain from cluster k of the file; a file without clusters starts with the new one. */
    method Stretch(c: dword, ghost k: int) returns (clst: dword)
      requires Core()
      requires if |chain| == 0 then c == 0 else 0 <= k < |chain| && c == chain[k]
      modifies this`sclust, this`chain, this`content,
               fs`disk, fs`winsect, fs`wflag, fs`image, fs`lastClust, fs`freeClust, fs`fsiFlag, fs.win
      ensures Core() && clst != 1
      ensures |old(chain)| > 0 && k < |old(chain)| - 1 ==>
                chain == old(chain) && clst == chain[k + 1] >= 2 && content == old(content)
      ensures !(|old(chain)| > 0 && k < |old(chain)| - 1) && clst == 0 ==>
                chain == old(chain) && content == old(content) && FreeCount(fs.Fat()) == 0
      ensures !(|old(chain)| > 0 && k < |old(chain)| - 1) && clst != 0 ==>
                clst >= 2 && chain == old(chain) + [clst] && old(content) <= content
      ensures sclust == (if |old(chain)| == 0 then clst else old(sclust))
      ensures Created(old(fs.Fat()), old(fs.lastClust), c, clst, fs.Fat(), END_MARK % fs.g.EntrySpan())
      ensures Kept(fs.g, old(Now()), Now())
    {
      hide *;
      CoreParts();
      CoreFacts();
      EndMarkOutside(fs.g);
      NowIs();
      ChainInUse(fs.Fat(), sclust, chain);
      fs.FatIsTable();
      ghost var d, t, mark, hint := fs.image, fs.Fat(), END_MARK % fs.g.EntrySpan(), fs.lastClust;
      ghost var steps;
      var ncl;
      ncl, steps := CreateChain(fs, c);
      fs.ImageIsDisk();
      fs.FatIsTable();
      CreateOnChain(t, hint, sclust, chain, c, k, ncl, fs.Fat(), mark);
      clst := ncl;
      if c == 0 { sclust := clst; }
      if !(|chain| > 0 && k < |chain| - 1) && clst != 0 {
        ChainIsGood(fs.g, fs.Fat(), sclust, chain + [clst]);
        ghost var more := GrowState(fs.g, d, fs.image, chain, clst, dirty, dsect, buf[..], dq, dr, content);
        chain := chain + [clst];
        content := content + more;
      } else {
        KeepState(fs.g, d, fs.image, chain, dirty, dsect, buf[..], dq, dr, content);
      }
      if fs.winsect < fs.g.fatbase + fs.g.fsize {
        ChainIsGood(fs.g, fs.Fat(), sclust, chain);
        FatWindowApart(fs.g, chain, fs.winsect);
      }
      MakeCore();
      NowIs();
      KeptByCreate(fs.g, old(Now()), Now(), hint, c, ncl, mark);
    }

    lemma CoreParts()
      requires Core()
      ensures fs.Valid() && buf != fs.win && buf.Length == fs.g.ss && fs.g.Valid() && IsDisk(fs.g, fs.image)
      ensures WellFormed(fs.Fat()) && ChainState(fs.Fat(), sclust, chain) && WindowApart(fs.g, chain, fs.winsect)
      ensures BufState(fs.g, fs.image, chain, dirty, dsect, buf[..], dq, dr)
      ensures Represents(fs.g, chain, ViewOf(fs.image, dirty, dsect, buf[..]), content)
    {
      hide Geometry.Valid, IsDisk, WellFormed, ChainState, WindowApart, BufState, Represents, ViewOf;
      fs.ImageIsDisk();
    }

    lemma MakeCore()
      requires fs.Valid() && buf != fs.win && buf.Length == fs.g.ss && fs.g.Valid() && IsDisk(fs.g, fs.image)
      requires WellFormed(fs.Fat()) && ChainState(fs.Fat(), sclust, chain) && WindowApart(fs.g, chain, fs.winsect)
      requires BufState(fs.g, fs.image, chain, dirty, dsect, buf[..], dq, dr)
      requires Represents(fs.g, chain, ViewOf(fs.image, dirty, dsect, buf[..]), content)
      ensures Core()
    {
      hide Volume.Valid, Geometry.Valid, IsDisk, WellFormed, ChainState, WindowApart, BufState, Represents, ViewOf;
    }

    /**
     * The cluster that f_write goes on in when the pointer stands on a cluster boundary: the first
     * cluster, the next one of the chain, or a new one.
     */
    method FollowForWrite() returns (clst: dword)
      requires Core() && fptr <= |content| && OnBoundary(fs.g, fptr)
      requires fptr > 0 ==> ClustOf(fs.g, chain, fptr, clust)
      modifies this`sclust, this`chain, this`content,
               fs`disk, fs`winsect, fs`wflag, fs`image, fs`lastClust, fs`freeClust, fs`fsiFlag, fs.win
      ensures Core() && old(chain) <= chain && old(content) <= content
      ensures clst != 1
      ensures clst == 0 ==>
                chain == old(chain) && content == old(content) && fptr == |content| && FreeCount(fs.Fat()) == 0
      ensures clst >= 2 ==> var q := ClusterIndex(fs.g, fptr); 0 <= q < |chain| && chain[q] == clst
      ensures |chain| <= |old(chain)| || |chain| <= ClusterIndex(fs.g, fptr) + 1
      ensures Kept(fs.g, old(Now()), Now())
    {
      hide Volume.Valid, Volume.Fat, Geometry.Valid, IsDisk, IsChain, WellFormed, Represents, WindowApart,
           SectorAt, GoodChain, OffsetAt, BufState, ViewOf, OnBoundary, ClusterIndex, SectorIndex, Capacity, FreeCount,
           Kept;
      KeptNow();
      CoreFacts();
      BoundaryFacts(fs.g, chain, fptr);
      EndMarkOutside(fs.g);
      if |chain| > 0 { NonEmpty(fs.Fat(), chain); }
      if fptr == 0 {
        clst := sclust;
        if clst == 0 {
          clst := Stretch(0, 0);
        }
      } else {
        clst := Stretch(clust, ClusterIndex(fs.g, fptr) - 1);
      }
    }

    /** The pointer stands on a sector boundary: find the cluster to write in.  Answers false when the disk is full. */
    method EnterSector() returns (ok: bool)
      requires Loop() && fptr % fs.g.ss == 0
      modifies this`sclust, this`clust, this`chain, this`content,
               fs`disk, fs`winsect, fs`wflag, fs`image, fs`lastClust, fs`freeClust, fs`fsiFlag, fs.win
      ensures Core() && old(content) <= content
      ensures !ok ==> Loop() && chain == old(chain) && content == old(content)
      ensures !ok ==> fptr == |content| && FreeCount(fs.Fat()) == 0
      ensures ok ==> fptr < |content| && AtPlace(fs.g, chain, fptr, clust)
      ensures |chain| <= |old(chain)| || |chain| <= ClusterIndex(fs.g, fptr) + 1
      ensures Kept(fs.g, old(Now()), Now())
    {
      hide Volume.Valid, Volume.Fat, Geometry.Valid, IsDisk, IsChain, WellFormed, Represents, WindowApart, ChainState,
           SectorAt, GoodChain, OffsetAt, BufState, ViewOf, OnBoundary, ClusterIndex, SectorIndex, FreeCount, Kept;
      KeptNow();
      CoreFacts();
      var csect := SectorIndex(fs.g, fptr);
      ok := true;
      if csect == 0 {
        BoundaryIs(fs.g, fptr);
        var clst := FollowForWrite();
        if clst == 0 { return false; }
        clust := clst;
        CoreFacts();
        BoundaryFacts(fs.g, chain, fptr);
      } else {
        InsideCluster(fs.g, fptr, |chain|);
      }
      PlaceOf(fs.g, fptr, |chain|);
    }

    /** The sector of the place the pointer stands on; 0, clust2sect's error, does not occur. */
    method SectorNumber() returns (sect: dword)
      requires Core() && fptr < |content| && AtPlace(fs.g, chain, fptr, clust)
      ensures sect == SectorAt(fs.g, chain, ClusterIndex(fs.g, fptr), SectorIndex(fs.g, fptr))
      ensures sect > 0
    {
      hide Volume.Valid, Volume.Fat, Geometry.Valid, Geometry.ClusterSector, IsDisk, IsChain, WellFormed, Represents,
           WindowApart, ChainState, SectorAt, GoodChain, BufState, ViewOf, ClusterIndex, SectorIndex;
      CoreFacts();
      ghost var q := ClusterIndex(fs.g, fptr);
      var csect := SectorIndex(fs.g, fptr);
      PlaceFacts(q, csect);
      ClusterStart(fs.g, chain, q, csect);
      ClustersBelowSectors(fs.g);
      sect := fs.g.ClusterSector(clust);
      if sect == 0 { return; }
      sect := sect + csect;
    }

    /** f_write on whole sectors: as many as the data fills and the cluster has left. */
    method WriteWhole(sect: dword, data: seq<byte>) returns (wcnt: nat)
      requires Core() && !dirty && fptr < |content| && fsize <= |content| && fptr % fs.g.ss == 0
      requires AtPlace(fs.g, chain, fptr, clust)
      requires sect == SectorAt(fs.g, chain, ClusterIndex(fs.g, fptr), SectorIndex(fs.g, fptr))
      requires fs.g.ss <= |data| && fptr + |data| < 0x1_0000_0000
      modifies this`fptr, this`content, buf, fs`disk, fs`image
      ensures Loop() && 0 < wcnt <= |data| && fptr == old(fptr) + wcnt
      ensures Advanced(old(content), content, fsize, old(fptr), wcnt, data)
      ensures Kept(fs.g, old(Now()), Now())
    {
      hide Volume.Valid, Volume.Fat, Geometry.Valid, IsDisk, IsChain, WellFormed, Represents, WindowApart, ChainState,
           SectorAt, GoodChain, OffsetAt, BufState, ViewOf, ClusterIndex, SectorIndex, Overwrite, Advanced, Kept;
      CoreFacts();
      PlaceOf(fs.g, fptr, |chain|);
      ghost var q := ClusterIndex(fs.g, fptr);
      var csect := SectorIndex(fs.g, fptr);
      var cc := |data| / fs.g.ss;
      WholeSectors(|data|, fs.g.ss, cc);
      if csect + cc > fs.g.csize {
        cc := fs.g.csize - csect;
        WholeSectors(|data|, fs.g.ss, cc);
      }
      DirectWrite(sect, cc, data[..cc * fs.g.ss], q, csect);
      EndOfRun(fs.g, fptr, q, csect, cc);
      wcnt := cc * fs.g.ss;
      OverwriteAdvances(old(content), fsize, fptr, wcnt, data);
      fptr := fptr + wcnt;
    }

    /** f_write on part of a sector, through the buffer. */
    method WritePart(data: seq<byte>, ghost q: int, ghost r: int) returns (wcnt: nat)
      requires Core() && fptr < |content| && fsize <= |content| && AtPlace(fs.g, chain, fptr, clust)
      requires q == ClusterIndex(fs.g, fptr) && r == SectorIndex(fs.g, fptr) && dsect == SectorAt(fs.g, chain, q, r)
      requires 0 < |data| && fptr + |data| < 0x1_0000_0000
      modifies this`fptr, this`dirty, this`content, this`dq, this`dr, buf
      ensures Loop() && 0 < wcnt <= |data| && fptr == old(fptr) + wcnt
      ensures Advanced(old(content), content, fsize, old(fptr), wcnt, data)
    {
      hide Volume.Valid, Volume.Fat, Geometry.Valid, IsDisk, IsChain, WellFormed, Represents, WindowApart, ChainState,
           SectorAt, GoodChain, OffsetAt, BufState, ViewOf, ClusterIndex, SectorIndex, Overwrite, Advanced;
      CoreFacts();
      PlaceOf(fs.g, fptr, |chain|);
      var o := fptr % fs.g.ss;
      wcnt := fs.g.ss - o;
      if wcnt > |data| { wcnt := |data|; }
      WithinSector(fs.g, fptr, wcnt);
      PatchBuf(o, data[..wcnt], q, r);
      OverwriteAdvances(old(content), fsize, fptr, wcnt, data);
      fptr := fptr + wcnt;
    }

    /** f_write at the growing edge: the sector is not loaded first, because nothing of it is part of the file yet. */
    method WriteEdge(sect: dword, data: seq<byte>) returns (wcnt: nat)
      requires Core() && !dirty && fptr < |content| && fsize <= |content| && AtPlace(fs.g, chain, fptr, clust)
      requires fptr % fs.g.ss == 0 && fsize <= fptr
      requires sect == SectorAt(fs.g, chain, ClusterIndex(fs.g, fptr), SectorIndex(fs.g, fptr))
      requires 0 < |data| && fptr + |data| < 0x1_0000_0000
      modifies this`fptr, this`dirty, this`dsect, this`content, this`dq, this`dr, buf
      ensures Loop() && 0 < wcnt <= |data| && fptr == old(fptr) + wcnt
      ensures Advanced(old(content), content, fsize, old(fptr), wcnt, data)
    {
      hide Volume.Valid, Volume.Fat, Geometry.Valid, IsDisk, IsChain, WellFormed, Represents, WindowApart, ChainState,
           SectorAt, GoodChain, OffsetAt, BufState, ViewOf, ClusterIndex, SectorIndex, Advanced;
      CoreFacts();
      PlaceOf(fs.g, fptr, |chain|);
      wcnt := fs.g.ss;
      if wcnt > |data| { wcnt := |data|; }
      WithinSector(fs.g, fptr, wcnt);
      ClaimBuf(sect, data[..wcnt], ClusterIndex(fs.g, fptr), SectorIndex(fs.g, fptr));
      EdgeAdvances(old(content), content, fsize, fptr, wcnt, data);
      fptr := fptr + wcnt;
    }

    /** A round of f_write that starts on a sector boundary of a place already found. */
    method WriteSector(data: seq<byte>) returns (wcnt: nat, res: Status)
      requires Core() && fptr < |content| && fsize <= |content| && fptr % fs.g.ss == 0
      requires AtPlace(fs.g, chain, fptr, clust)
      requires 0 < |data| && fptr + |data| < 0x1_0000_0000
      modifies this`fptr, this`dirty, this`dsect, this`content, this`dq, this`dr, buf, fs`disk, fs`image
      ensures Loop() && res == Ok && 0 < wcnt <= |data| && fptr == old(fptr) + wcnt
      ensures Advanced(old(content), content, fsize, old(fptr), wcnt, data)
      ensures Kept(fs.g, old(Now()), Now())
    {
      hide *;
      CoreFacts();
      FlushBuf();
      ghost var mid := Now();
      KeptNow();
      var sect := SectorNumber();
      wcnt, res := 0, IntErr;
      if sect == 0 { return; }
      ghost var q, r := ClusterIndex(fs.g, fptr), SectorIndex(fs.g, fptr);
      PlaceBounds(fs.g, chain, fptr, clust);
      res := Ok;
      if |data| / fs.g.ss > 0 {
        DivBound(|data|, 1, fs.g.ss);
        wcnt := WriteWhole(sect, data);
      } else if dsect != sect && fptr >= fsize {
        wcnt := WriteEdge(sect, data);
      } else {
        if dsect != sect { LoadBuf(sect, q, r); }
        wcnt := WritePart(data, q, r);
      }
      KeptThen(fs.g, old(Now()), mid, Now());
    }

    /** One round of f_write's loop.  A full disk is the only way not to advance. */
    method WriteSome(data: seq<byte>) returns (wcnt: nat, res: Status)
      requires Loop() && 0 < |data| && fptr + |data| < 0x1_0000_0000
      modifies this`fptr, this`dirty, this`dsect, this`sclust, this`clust, this`chain, this`content, this`dq, this`dr,
               buf, fs`disk, fs`winsect, fs`wflag, fs`image, fs`lastClust, fs`freeClust, fs`fsiFlag, fs.win
      ensures Loop() && res == Ok && wcnt <= |data| && fptr == old(fptr) + wcnt
      ensures Advanced(old(content), content, fsize, old(fptr), wcnt, data)
      ensures wcnt == 0 ==> chain == old(chain) && fptr == |content| && FreeCount(fs.Fat()) == 0
      ensures |chain| <= |old(chain)| || (wcnt > 0 && |chain| <= ClusterIndex(fs.g, fptr - 1) + 1)
      ensures Kept(fs.g, old(Now()), Now())
    {
      hide *;
      LoopFacts();
      KeptNow();
      ghost var before := content;
      if fptr % fs.g.ss == 0 {
        var ok := EnterSector();
        CoreFacts();
        if ok {
          ghost var mid, was := content, Now();
          wcnt, res := WriteSector(data);
          KeptThen(fs.g, old(Now()), was, Now());
          IndexMonotone(fs.g, old(fptr), fptr - 1);
          GrowthAdvances(before, mid, content, fsize, old(fptr), wcnt, data);
        } else {
          NothingAdvances(content, fsize, fptr, data);
          wcnt, res := 0, Ok;
        }
      } else {
        PointerInside();
        wcnt := WritePart(data, ClusterIndex(fs.g, fptr), SectorIndex(fs.g, fptr));
        res := Ok;
      }
      LoopFacts();
    }

    lemma LoopFacts()
      requires Loop()
      ensures Core() && 0 <= fptr <= |content| && fsize <= |content| && fs.g.ss > 0 && fs.g.csize > 0 && buf != fs.win
      ensures fs.Valid() && fs.g.Valid() && IsDisk(fs.g, fs.image)
    {
      hide Core;
      CoreFacts();
    }

    /** The bytes of the file. */
    ghost function Contents(): seq<byte>
      requires fsize <= |content|
      reads this
    {
      content[..fsize]
    }

    /** The loop of f_write. */
    method WriteLoop(data: seq<byte>) returns (bw: nat)
      requires Loop() && fptr <= fsize && (data != [] ==> fsize + |data| < 0x1_0000_0000)
      modifies this`fptr, this`dirty, this`dsect, this`sclust, this`clust, this`chain, this`content, this`dq, this`dr,
               buf, fs`disk, fs`winsect, fs`wflag, fs`image, fs`lastClust, fs`freeClust, fs`fsiFlag, fs.win
      ensures Loop() && bw <= |data| && fptr == old(fptr) + bw
      ensures Advanced(old(content), content, fsize, old(fptr), bw, data)
      ensures bw < |data| ==> FreeCount(fs.Fat()) == 0 && fptr == |content|
      ensures bw == 0 ==> chain == old(chain)
      ensures |chain| <= |old(chain)| || (bw > 0 && |chain| <= ClusterIndex(fs.g, fptr - 1) + 1)
      ensures Kept(fs.g, old(Now()), Now())
    {
      hide *;
      LoopFacts();
      KeptNow();
      var btw := |data|;
      bw := 0;
      NothingAdvances(content, fsize, fptr, data);
      while btw > 0
        invariant Loop() && fs.Valid() && fs.g.Valid() && IsDisk(fs.g, fs.image) && fptr == old(fptr) + bw
        invariant bw <= |data| && btw == |data| - bw
        invariant Advanced(old(content), content, fsize, old(fptr), bw, data)
        invariant bw == 0 ==> chain == old(chain)
        invariant |chain| <= |old(chain)| || (bw > 0 && |chain| <= ClusterIndex(fs.g, fptr - 1) + 1)
        invariant Kept(fs.g, old(Now()), Now())
        decreases btw
      {
        ghost var mid, was := content, Now();
        var wcnt, res := WriteSome(data[bw..]);
        LoopFacts();
        KeptThen(fs.g, old(Now()), was, Now());
        if bw > 0 { IndexMonotone(fs.g, old(fptr) + bw - 1, fptr - 1); }
        AdvanceMore(old(content), mid, content, fsize, old(fptr), bw, wcnt, data);
        bw := bw + wcnt;
        if wcnt == 0 { break; }
        btw := btw - wcnt;
      }
    }

    /**
     * f_write: bw bytes of data are stored at the pointer; it stores fewer than asked only when the
     * size would reach 4 GB (then nothing) or when no cluster is free (then it stops at the end of its clusters).
     */
    method Write(data: seq<byte>) returns (res: Status, bw: nat)
      requires Valid() && |data| < 0x1_0000_0000
      modifies this`fptr, this`fsize, this`dirty, this`written, this`dsect, this`sclust, this`clust, this`chain,
               this`content, this`dq, this`dr, buf,
               fs`disk, fs`winsect, fs`wflag, fs`image, fs`lastClust, fs`freeClust, fs`fsiFlag, fs.win
      ensures Valid() && bw <= |data| && fptr == old(fptr) + bw
      ensures res == (if writable then Ok else Denied) && (!writable ==> bw == 0)
      ensures Contents() == Splice(old(Contents()), old(fptr), data[..bw])
      ensures writable && bw < |data| ==>
                (bw == 0 && old(fsize) + |data| >= 0x1_0000_0000) || (FreeCount(fs.Fat()) == 0 && fptr == |content|)
      ensures bw == 0 ==> chain == old(chain)
      ensures bw > 0 ==> |chain| == var n := ClusterIndex(fs.g, fptr - 1) + 1;
                                    if n > |old(chain)| then n else |old(chain)|
      ensures written == (old(written) || writable)
      ensures Kept(fs.g, old(Now()), Now())
    {
      hide *;
      LoopOf();
      LoopFacts();
      KeptNow();
      NowIs();
      ContentsIs();
      SpliceNothing(Contents(), fptr, data);
      if !writable { return Denied, 0; }
      var btw := |data|;
      if (fsize + btw) % 0x1_0000_0000 < fsize { btw := 0; }
      GuardIs(fsize, |data|);
      ghost var before := content;
      bw := WriteLoop(data[..btw]);
      LoopFacts();
      AdvancedSplice(before, content, fsize, old(fptr), bw, data[..btw]);
      assert data[..btw][..bw] == data[..bw];
      NeededClusters();
      KeptCount(fs.g, old(Now()), Now());
      NowIs();
      RaiseSize();
      LoopOf();
      written := true;
      ContentsIs();
      res := Ok;
    }

    lemma ContentsIs()
      requires fsize <= |content|
      ensures Contents() == content[..fsize]
    {
    }

    /** The chain reaches to the cluster before the pointer. */
    lemma NeededClusters()
      requires Loop()
      ensures fs.g.ss > 0 && fs.g.csize > 0 && fptr >= 0 && (fptr > 0 ==> 0 <= ClusterIndex(fs.g, fptr - 1) < |chain|)
    {
      hide Core, ClusterIndex;
      LoopFacts();
    }

    /** The last step of f_write and of f_lseek: the size follows a pointer that passed it. */
    method RaiseSize()
      requires Loop()
      modifies this`fsize
      ensures Valid() && fsize == if fptr > old(fsize) then fptr else old(fsize)
    {
      hide Core, ClustOf, SectOf;
      if fptr > fsize { fsize := fptr; }
    }

    lemma LoopOf()
      requires Valid()
      ensures Loop() && 0 <= fptr <= fsize <= |content|
    {
      hide Core;
    }

    /** The pointer stands on a sector boundary inside the file: find the cluster to read from. */
    method EnterForRead() returns (res: Status)
      requires Loop() && fptr < |content| && fptr % fs.g.ss == 0
      modifies this`clust, fs`disk, fs`winsect, fs`wflag, fs.win
      ensures Core() && res == Ok && AtPlace(fs.g, chain, fptr, clust)
    {
      hide Volume.Valid, Volume.Fat, Geometry.Valid, IsDisk, IsChain, WellFormed, Represents, WindowApart,
           SectorAt, GoodChain, OffsetAt, BufState, ViewOf, OnBoundary, ClusterIndex, SectorIndex;
      CoreFacts();
      PlaceOf(fs.g, fptr, |chain|);
      if SectorIndex(fs.g, fptr) == 0 {
        BoundaryIs(fs.g, fptr);
        BoundaryFacts(fs.g, chain, fptr);
        ghost var q := ClusterIndex(fs.g, fptr);
        NonEmpty(fs.Fat(), chain);
        EndMarkOutside(fs.g);
        ChainStep(fs.Fat(), chain, q);
        var clst;
        if fptr == 0 {
          clst := sclust;
        } else {
          ChainStep(fs.Fat(), chain, q - 1);
          clst := fs.GetFat(clust);
          FatWindowApart(fs.g, chain, fs.winsect);
        }
        if clst < 2 { return IntErr; }
        clust := clst;
      } else {
        InsideCluster(fs.g, fptr, |chain|);
      }
      res := Ok;
    }

    /** Make the buffer show the pointer's place, writing back a dirty one first. */
    method ShowSector(sect: dword, ghost q: int, ghost r: int)
      requires Core() && 0 <= q < |chain| && 0 <= r < fs.g.csize && sect == SectorAt(fs.g, chain, q, r)
      modifies this`dirty, this`dsect, buf, fs`disk, fs`image
      ensures Core() && dsect == sect && fs.Fat() == old(fs.Fat())
      ensures if old(dsect) == sect then dirty == old(dirty) && buf[..] == old(buf[..]) else !dirty
      ensures Kept(fs.g, old(Now()), Now())
    {
      hide *;
      KeptNow();
      if dsect != sect {
        FlushBuf();
        LoadBuf(sect, q, r);
      }
    }

    /** f_read on whole sectors. */
    method ReadWhole(sect: dword, btr: nat) returns (data: seq<byte>)
      requires Core() && fptr + btr <= fsize <= |content| && fptr < |content| && fptr % fs.g.ss == 0 && fs.g.ss <= btr
      requires AtPlace(fs.g, chain, fptr, clust)
      requires sect == SectorAt(fs.g, chain, ClusterIndex(fs.g, fptr), SectorIndex(fs.g, fptr))
      modifies this`fptr
      ensures Loop() && 0 < |data| <= btr && fptr == old(fptr) + |data|
      ensures data == content[old(fptr)..fptr]
    {
      hide Volume.Valid, Volume.Fat, Geometry.Valid, IsDisk, IsChain, WellFormed, Represents, WindowApart, ChainState,
           SectorAt, GoodChain, OffsetAt, BufState, ViewOf, ClusterIndex, SectorIndex;
      CoreFacts();
      PlaceOf(fs.g, fptr, |chain|);
      ghost var q := ClusterIndex(fs.g, fptr);
      var csect := SectorIndex(fs.g, fptr);
      var cc := btr / fs.g.ss;
      WholeSectors(btr, fs.g.ss, cc);
      if csect + cc > fs.g.csize {
        cc := fs.g.csize - csect;
        WholeSectors(btr, fs.g.ss, cc);
      }
      data := DirectRead(sect, cc, q, csect);
      EndOfRun(fs.g, fptr, q, csect, cc);
      fptr := fptr + |data|;
    }

    /** f_read on part of a sector, from the buffer. */
    method ReadPart(btr: nat, ghost q: int, ghost r: int) returns (data: seq<byte>)
      requires Core() && fptr + btr <= fsize <= |content| && fptr < |content| && 0 < btr
      requires AtPlace(fs.g, chain, fptr, clust)
      requires q == ClusterIndex(fs.g, fptr) && r == SectorIndex(fs.g, fptr) && dsect == SectorAt(fs.g, chain, q, r)
      modifies this`fptr
      ensures Loop() && 0 < |data| <= btr && fptr == old(fptr) + |data|
      ensures data == content[old(fptr)..fptr]
    {
      hide Volume.Valid, Volume.Fat, Geometry.Valid, IsDisk, IsChain, WellFormed, Represents, WindowApart, ChainState,
           SectorAt, GoodChain, OffsetAt, BufState, ViewOf, ClusterIndex, SectorIndex;
      CoreFacts();
      PlaceOf(fs.g, fptr, |chain|);
      BufShows(q, r);
      var o := fptr % fs.g.ss;
      var rcnt := fs.g.ss - o;
      if rcnt > btr { rcnt := btr; }
      WithinSector(fs.g, fptr, rcnt);
      data := buf[o..o + rcnt];
      assert data == buf[..][o..o + rcnt];
      SliceOfSlice(content, OffsetAt(fs.g, q, r), fs.g.ss, o, rcnt);
      fptr := fptr + rcnt;
    }

    /** One round of f_read's loop. */
    method ReadSome(btr: nat) returns (data: seq<byte>, res: Status)
      requires Loop() && 0 < btr && fptr + btr <= fsize
      modifies this`fptr, this`clust, this`dirty, this`dsect, buf, fs`disk, fs`winsect, fs`wflag, fs`image, fs.win
      ensures Loop() && res == Ok && 0 < |data| <= btr && fptr == old(fptr) + |data|
      ensures data == content[old(fptr)..fptr]
      ensures Kept(fs.g, old(Now()), Now())
    {
      hide *;
      LoopFacts();
      KeptNow();
      data, res := [], Ok;
      if fptr % fs.g.ss == 0 {
        res := EnterForRead();
        if res != Ok { return; }
        var sect := SectorNumber();
        res := IntErr;
        if sect == 0 { return; }
        res := Ok;
        if btr / fs.g.ss > 0 {
          DivBound(btr, 1, fs.g.ss);
          data := ReadWhole(sect, btr);
          return;
        }
        PlaceBounds(fs.g, chain, fptr, clust);
        ShowSector(sect, ClusterIndex(fs.g, fptr), SectorIndex(fs.g, fptr));
      } else {
        PointerInside();
      }
      data := ReadPart(btr, ClusterIndex(fs.g, fptr), SectorIndex(fs.g, fptr));
    }

    /** f_read: exactly the bytes from the pointer on, clipped to the file size. */
    method Read(btr: nat) returns (res: Status, data: seq<byte>)
      requires Valid()
      modifies this`fptr, this`clust, this`dirty, this`dsect, buf, fs`disk, fs`winsect, fs`wflag, fs`image, fs.win
      ensures Valid() && old(fptr) <= fptr <= fsize <= |content|
      ensures res == if readable then Ok else Denied
      ensures !readable ==> data == [] && fptr == old(fptr)
      ensures readable ==> fptr == if old(fptr) + btr <= fsize then old(fptr) + btr else fsize
      ensures readable ==> data == Contents()[old(fptr)..fptr]
      ensures Kept(fs.g, old(Now()), Now())
    {
      hide Core, Loop, ClustOf, SectOf, Kept;
      LoopOf();
      LoopFacts();
      KeptNow();
      data := [];
      if !readable { return Denied, data; }
      var remain := fsize - fptr;
      var n: nat := if btr > remain then remain else btr;
      ghost var stop := fptr + n;
      res := Ok;
      while n > 0
        invariant Valid() && old(fptr) <= fptr && fptr + n == stop <= fsize && res == Ok
        invariant data == content[old(fptr)..fptr]
        invariant Kept(fs.g, old(Now()), Now())
        decreases n
      {
        ghost var mid, was := fptr, Now();
        var more;
        more, res := ReadSome(n);
        KeptThen(fs.g, old(Now()), was, Now());
        if res != Ok { return; }
        Cut(content, old(fptr), mid, fptr);
        data := data + more;
        n := n - |more|;
      }
      assert Contents()[old(fptr)..fptr] == content[old(fptr)..fptr];
    }

    /** One step of f_lseek's cluster loop, from cluster k of the file. */
    method SeekNext(clst: dword, ghost k: int, ghost target: int) returns (next: dword)
      requires Core() && 0 <= k < |chain| && clst == chain[k] && OffsetAt(fs.g, k + 1, 0) < target
      requires !writable ==> target <= |content|
      modifies this`sclust, this`chain, this`content,
               fs`disk, fs`winsect, fs`wflag, fs`image, fs`lastClust, fs`freeClust, fs`fsiFlag, fs.win
      ensures Core() && old(content) <= content
      ensures target <= |old(content)| ==> chain == old(chain) && content == old(content) && next != 0
      ensures next == 0 ==>
                && chain == old(chain) && content == old(content)
                && |content| == OffsetAt(fs.g, k + 1, 0) && FreeCount(fs.Fat()) == 0
      ensures next != 0 ==> k + 1 < |chain| && next == chain[k + 1] && 2 <= next < fs.g.nFatent
      ensures |chain| <= |old(chain)| || |chain| <= k + 2
      ensures writable || (next != 0 && chain == old(chain))
      ensures Kept(fs.g, old(Now()), Now())
    {
      hide Volume.Valid, Volume.Fat, Geometry.Valid, IsDisk, IsChain, WellFormed, Represents, WindowApart,
           SectorAt, GoodChain, OffsetAt, BufState, ViewOf, FreeCount, Kept;
      KeptNow();
      CoreFacts();
      ClusterStarts(fs.g, k + 1, |chain|);
      if writable {
        next := Stretch(clst, k);
      } else {
        EndMarkOutside(fs.g);
        ChainStep(fs.Fat(), chain, k);
        var v := fs.GetFat(clst);
        FatWindowApart(fs.g, chain, fs.winsect);
        next := v;
      }
      CoreFacts();
      if next != 0 { InVolume(k + 1); }
    }

    lemma InVolume(q: int)
      requires Core() && 0 <= q < |chain|
      ensures 2 <= chain[q] < fs.g.nFatent
    {
      hide Volume.Valid, Geometry.Valid, IsDisk, IsChain, WellFormed, Represents, WindowApart, ChainState, BufState,
           ViewOf;
      CoreFacts();
    }

    /** f_lseek's cluster loop: from the start of cluster k, ofs bytes on. */
    method SeekClusters(start: dword, ghost k0: int, ofs0: dword, ghost target: int)
      returns (clst: dword, ofs: dword, res: Status, ghost k: int)
      requires Core() && 0 <= k0 < |chain| && start == chain[k0] == clust && fptr == OffsetAt(fs.g, k0, 0)
      requires 0 < ofs0 && fptr + ofs0 == target < 0x1_0000_0000 && (!writable ==> target <= |content|)
      modifies this`fptr, this`clust, this`sclust, this`chain, this`content,
               fs`disk, fs`winsect, fs`wflag, fs`image, fs`lastClust, fs`freeClust, fs`fsiFlag, fs.win
      ensures Core() && res == Ok && old(content) <= content
      ensures target <= |old(content)| ==> chain == old(chain) && content == old(content)
      ensures 0 < ofs <= ClusterBytes(fs.g) && 0 <= fptr
      ensures fptr + ofs == target || (fptr + ofs == |content| < target && ofs % fs.g.ss == 0
              && FreeCount(fs.Fat()) == 0)
      ensures k0 <= k < |chain| && chain[k] == clust && fptr == OffsetAt(fs.g, k, 0) && fptr + ofs <= |content|
      ensures |chain| <= |old(chain)| || |chain| <= k + 1
      ensures !writable ==> chain == old(chain)
      ensures ofs % fs.g.ss != 0 ==> clst == clust
      ensures Kept(fs.g, old(Now()), Now())
    {
      hide *;
      KeptNow();
      CoreFacts();
      k := k0;
      ClusterStarts(fs.g, 0, 0);
      SmallCluster(fs.g);
      var bcs := ClusterBytes(fs.g);
      clst, ofs, res := start, ofs0, Ok;
      while ofs > bcs
        invariant Core() && k0 <= k < |chain| && clst == chain[k] == clust && fptr == OffsetAt(fs.g, k, 0) >= 0
        invariant 0 < ofs && fptr + ofs == target && (!writable ==> target <= |content|)
        invariant old(content) <= content
        invariant target <= |old(content)| ==> chain == old(chain) && content == old(content)
        invariant |chain| <= |old(chain)| || |chain| <= k + 1
        invariant !writable ==> chain == old(chain)
        invariant Kept(fs.g, old(Now()), Now())
        decreases ofs
      {
        OffsetRun(fs.g, k, 0);
        ghost var was := Now();
        clst := SeekNext(clst, k, target);
        KeptThen(fs.g, old(Now()), was, Now());
        if clst == 0 {
          ofs := bcs;
          BytesOfCluster(fs.g);
          break;
        }
        if clst <= 1 || clst >= fs.g.nFatent { res := IntErr; return; }
        clust := clst;
        fptr := fptr + bcs;
        ofs := ofs - bcs;
        k := k + 1;
      }
      CoreFacts();
      CapacityIs(fs.g, chain);
      OffsetRun(fs.g, k, 0);
      ClusterStarts(fs.g, k + 1, |chain|);
      ClusterStarts(fs.g, |chain|, k + 1);
    }

    /** Where f_lseek starts to follow the chain: the current cluster if the target is not before it, else the first. */
    method SeekStart(ofs: dword) returns (clst: dword, rest: dword, ghost k: int)
      requires Valid() && 0 < ofs && (!writable ==> ofs <= fsize)
      modifies this`fptr, this`clust, this`sclust, this`chain, this`content,
               fs`disk, fs`winsect, fs`wflag, fs`image, fs`lastClust, fs`freeClust, fs`fsiFlag, fs.win
      ensures Core() && old(content) <= content && clst != 1
      ensures ofs <= |old(content)| ==> chain == old(chain) && content == old(content) && clst != 0
      ensures clst == 0 ==> fptr == 0 == |content| && content == old(content) && FreeCount(fs.Fat()) == 0
      ensures clst == 0 || !writable ==> chain == old(chain)
      ensures |chain| <= |old(chain)| || |chain| <= k + 1
      ensures clst != 0 ==> 0 <= k < |chain| && clst == chain[k] == clust && fptr == OffsetAt(fs.g, k, 0) >= 0
      ensures clst != 0 ==> 0 < rest && fptr + rest == ofs
      ensures Kept(fs.g, old(Now()), Now())
    {
      hide Volume.Valid, Volume.Fat, Geometry.Valid, IsDisk, IsChain, WellFormed, Represents, WindowApart,
           SectorAt, GoodChain, OffsetAt, BufState, ViewOf, FreeCount, ClusterIndex, SectorIndex,
           ClusterNumber, ClusterBase, ClusterBytes, ChainState, Times, Kept;
      KeptNow();
      CoreFacts();
      ClusterStarts(fs.g, 0, 0);
      TimesIs(0, ClusterBytes(fs.g));
      var ifptr := fptr;
      fptr := 0;
      rest := ofs;
      IndexByBytes(fs.g, ofs - 1);
      if ifptr > 0 { IndexByBytes(fs.g, ifptr - 1); }
      if ifptr > 0 && ClusterNumber(fs.g, ofs - 1) >= ClusterNumber(fs.g, ifptr - 1) {
        k := ClusterIndex(fs.g, ifptr - 1);
        SeekForward(fs.g, ifptr, ofs);
        InVolume(k);
        fptr := ClusterBase(fs.g, ifptr - 1);
        rest := ofs - fptr;
        clst := clust;
      } else {
        k := 0;
        clst := SeekFirst();
        clust := clst;
      }
    }

    /** The file's first cluster, created if the file has none. */
    method SeekFirst() returns (clst: dword)
      requires Core()
      modifies this`sclust, this`chain, this`content,
               fs`disk, fs`winsect, fs`wflag, fs`image, fs`lastClust, fs`freeClust, fs`fsiFlag, fs.win
      ensures Core() && old(content) <= content && clst != 1
      ensures 0 < |old(content)| ==> chain == old(chain) && content == old(content) && clst != 0
      ensures clst == 0 ==> 0 == |content| && content == old(content) && FreeCount(fs.Fat()) == 0
      ensures clst == 0 ==> chain == old(chain)
      ensures |chain| <= |old(chain)| || |chain| <= 1
      ensures clst != 0 ==> 0 < |chain| && clst == chain[0]
      ensures Kept(fs.g, old(Now()), Now())
    {
      hide Volume.Valid, Volume.Fat, Geometry.Valid, IsDisk, IsChain, WellFormed, Represents, WindowApart,
           SectorAt, GoodChain, OffsetAt, BufState, ViewOf, FreeCount, Capacity, Kept;
      KeptNow();
      CoreFacts();
      ClusterStarts(fs.g, 0, 0);
      CapacityIs(fs.g, chain);
      TimesIs(0, ClusterBytes(fs.g));
      clst := sclust;
      if clst == 0 {
        clst := Stretch(0, 0);
      } else {
        NonEmpty(fs.Fat(), chain);
      }
    }

    /**
     * The first part of f_lseek: move pointer and cluster to the target; nsect is the target's sector, if off
     * a boundary.
     */
    method SeekMove(target: dword) returns (nsect: dword, res: Status)
      requires Valid() && 0 < target && (!writable ==> target <= fsize)
      modifies this`fptr, this`clust, this`sclust, this`chain, this`content,
               fs`disk, fs`winsect, fs`wflag, fs`image, fs`lastClust, fs`freeClust, fs`fsiFlag, fs.win
      ensures Core() && res == Ok && old(content) <= content && 0 <= fptr <= |content|
      ensures target <= |old(content)| ==> chain == old(chain) && content == old(content) && fptr == target
      ensures fptr == target || (fptr == |content| < target && FreeCount(fs.Fat()) == 0)
      ensures fptr == 0 || !writable ==> chain == old(chain)
      ensures |chain| <= |old(chain)| || (fptr > 0 && |chain| <= ClusterIndex(fs.g, fptr - 1) + 1)
      ensures fptr > 0 ==> ClustOf(fs.g, chain, fptr, clust)
      ensures fptr % fs.g.ss != 0 ==> SectOf(fs.g, chain, fptr, nsect)
      ensures Kept(fs.g, old(Now()), Now())
    {
      hide *;
      LoopOf();
      LoopFacts();
      nsect, res := 0, Ok;
      var clst, rest;
      ghost var k;
      clst, rest, k := SeekStart(target);
      CoreFacts();
      res := IntErr;
      if clst == 1 { return; }
      res := Ok;
      ZeroMod(fs.g.ss);
      if clst != 0 {
        ghost var was := Now();
        clst, rest, res, k := SeekClusters(clst, k, rest, target);
        KeptThen(fs.g, old(Now()), was, Now());
        if res != Ok { return; }
        CoreFacts();
        fptr := fptr + rest;
        nsect, res := SeekSector(clst, rest, k);
      }
    }

    /** The pointer stands rest bytes into cluster k: the sector to buffer, if it is off a sector boundary. */
    method SeekSector(clst: dword, rest: dword, ghost k: int) returns (nsect: dword, res: Status)
      requires Core() && 0 <= k < |chain| && chain[k] == clust && (rest % fs.g.ss != 0 ==> clst == clust)
      requires 0 < rest <= ClusterBytes(fs.g) && fptr == OffsetAt(fs.g, k, 0) + rest
      ensures res == Ok && fptr > 0 && ClustOf(fs.g, chain, fptr, clust) && ClusterIndex(fs.g, fptr - 1) == k
      ensures fptr % fs.g.ss != 0 ==> SectOf(fs.g, chain, fptr, nsect)
    {
      hide *;
      CoreFacts();
      EndsIn(fs.g, fptr, k, rest);
      ClustOfIs(fs.g, chain, fptr, clust, k);
      nsect, res := 0, Ok;
      if rest % fs.g.ss != 0 {
        var r := SectorsIn(fs.g, rest);
        InVolume(k);
        ClustersBelowSectors(fs.g);
        ClusterStart(fs.g, chain, k, r);
        PlaceFacts(k, r);
        SectOfIs(fs.g, chain, fptr, k, r);
        nsect, res := fs.g.ClusterSector(clst), IntErr;
        if nsect == 0 { return; }
        nsect, res := nsect + r, Ok;
      }
    }

    /** The second part of f_lseek: off a sector boundary, make the buffer show the pointer's sector. */
    method SeekLoad(nsect: dword)
      requires Core() && 0 <= fptr <= |content| && (fptr % fs.g.ss != 0 ==> SectOf(fs.g, chain, fptr, nsect))
      requires fptr > 0 ==> ClustOf(fs.g, chain, fptr, clust)
      requires fsize <= |content|
      modifies this`dirty, this`dsect, buf, fs`disk, fs`image
      ensures Loop() && fs.Fat() == old(fs.Fat())
      ensures fptr % fs.g.ss != 0 ==> SectOf(fs.g, chain, fptr, dsect)
      ensures if fptr % fs.g.ss != 0 && !SectOf(fs.g, chain, fptr, old(dsect)) then !dirty
              && ShowsSector(content, fptr, fs.g.ss, buf[..])
              else dsect == old(dsect) && dirty == old(dirty) && buf[..] == old(buf[..])
      ensures Kept(fs.g, old(Now()), Now())
    {
      hide Volume.Valid, Volume.Fat, Geometry.Valid, IsDisk, IsChain, WellFormed, Represents, WindowApart, ChainState,
           SectorAt, GoodChain, OffsetAt, BufState, ViewOf, ClusterIndex, SectorIndex, Kept;
      KeptNow();
      CoreFacts();
      if fptr % fs.g.ss != 0 && nsect != dsect {
        CapacityIs(fs.g, chain);
        OffBoundary(fs.g, fptr, |chain|);
        PlaceOf(fs.g, fptr, |chain|);
        ghost var q, r := ClusterIndex(fs.g, fptr), SectorIndex(fs.g, fptr);
        ShowSector(nsect, q, r);
        BufShows(q, r);
      }
    }

    /**
     * f_lseek without a link map.  Inside the file the pointer goes to the target and the state is Sought's;
     * beyond the size a writable file is stretched, as far as free clusters allow, and keeps its bytes.
     */
    method Seek(ofs: dword) returns (res: Status)
      requires Valid()
      modifies this`fptr, this`fsize, this`dirty, this`written, this`dsect, this`sclust, this`clust, this`chain,
               this`content,
               buf, fs`disk, fs`winsect, fs`wflag, fs`image, fs`lastClust, fs`freeClust, fs`fsiFlag, fs.win
      ensures Valid() && res == Ok && old(content) <= content
      ensures ofs <= old(fsize) ==>
                && fptr == ofs && fsize == old(fsize) && chain == old(chain) && content == old(content)
                && Sought(fs.g, chain, content, ofs, old(clust), old(dsect), old(dirty), old(buf[..]),
                          clust, dsect, dirty, buf[..])
      ensures ofs > old(fsize) && !writable ==>
                fptr == fsize == old(fsize) && chain == old(chain) && content == old(content)
      ensures ofs > old(fsize) && writable ==>
                && fsize == (if fptr > old(fsize) then fptr else old(fsize))
                && (fptr == ofs || (fptr == |content| < ofs && FreeCount(fs.Fat()) == 0))
      ensures fptr == 0 ==> chain == old(chain)
      ensures fptr > 0 ==> |chain| == var n := ClusterIndex(fs.g, fptr - 1) + 1;
                                      if n > |old(chain)| then n else |old(chain)|
      ensures written == (old(written) || fptr > old(fsize))
      ensures Kept(fs.g, old(Now()), Now())
    {
      hide *;
      LoopOf();
      LoopFacts();
      KeptNow();
      NowIs();
      res := Ok;
      var target := if ofs > fsize && !writable then fsize else ofs;
      var nsect := 0;
      ZeroMod(fs.g.ss);
      if target > 0 {
        nsect, res := SeekMove(target);
        if res != Ok { return; }
      } else {
        fptr := 0;
      }
      assert buf[..] == old(buf[..]);
      ghost var was := Now();
      SeekFinish(nsect, if fptr > 0 then old(clust) else clust);
      KeptThen(fs.g, old(Now()), was, Now());
      LoopOf();
      NeededClusters();
      KeptCount(fs.g, old(Now()), Now());
      NowIs();
    }

    /** The end of f_lseek: buffer the pointer's sector and raise the size. */
    method SeekFinish(nsect: dword, ghost c: int)
      requires Core() && 0 <= fptr <= |content| && (fptr % fs.g.ss != 0 ==> SectOf(fs.g, chain, fptr, nsect))
      requires if fptr > 0 then ClustOf(fs.g, chain, fptr, clust) else c == clust
      requires fsize <= |content|
      modifies this`dirty, this`dsect, this`fsize, this`written, buf, fs`disk, fs`image
      ensures Valid() && fs.Fat() == old(fs.Fat()) && fsize == if fptr > old(fsize) then fptr else old(fsize)
      ensures written == (old(written) || fptr > old(fsize))
      ensures Sought(fs.g, chain, content, fptr, c, old(dsect), old(dirty), old(buf[..]), clust, dsect, dirty, buf[..])
      ensures Kept(fs.g, old(Now()), Now())
    {
      hide *;
      CoreFacts();
      SeekLoad(nsect);
      LoopFacts();
      SoughtIs(fs.g, chain, content, fptr, c, clust, old(dsect), old(dirty), old(buf[..]), dsect, dirty, buf[..]);
      if fptr > fsize { written := true; }
      RaiseSize();
    }

    /** f_lseek with a link map of the file's chain: no FAT is read, and the outcome is the one of Seek. */
    method FastSeek(tbl: array<nat>, ofs: dword) returns (res: Status)
      requires Valid() && LinkMapOf(tbl[..], chain)
      modifies this`fptr, this`clust, this`dirty, this`dsect, buf, fs`disk, fs`image
      ensures Valid() && res == Ok
      ensures fptr == if ofs <= fsize then ofs else fsize
      ensures Sought(fs.g, chain, content, fptr, old(clust), old(dsect), old(dirty), old(buf[..]),
                     clust, dsect, dirty, buf[..])
      ensures Kept(fs.g, old(Now()), Now())
    {
      hide *;
      LoopOf();
      LoopFacts();
      var target := if ofs > fsize then fsize else ofs;
      res := Ok;
      ZeroMod(fs.g.ss);
      var dsc := 0;
      if target > 0 {
        var c := ClmtClust(fs.g, tbl, target - 1, chain);
        IndexNat(fs.g, target - 1);
        dsc, res := FastSector(c, target);
        if res != Ok { return; }
        clust := c;
      }
      fptr := target;
      SeekLoad(dsc);
      LoopFacts();
      SoughtIs(fs.g, chain, content, fptr, old(clust), clust, old(dsect), old(dirty), old(buf[..]), dsect, dirty,
          buf[..]);
      ValidOf();
    }

    lemma ValidOf()
      requires Loop() && fptr <= fsize
      ensures Valid()
    {
    }

    /** The sector of byte target - 1, from the cluster the link map gave. */
    method FastSector(c: nat, target: dword) returns (dsc: dword, res: Status)
      requires Core() && 0 < target <= |content|
      requires var q := ClusterIndex(fs.g, target - 1); c == if 0 <= q < |chain| then chain[q] else 0
      ensures res == Ok && c < 0x1_0000_0000 && ClustOf(fs.g, chain, target, c)
      ensures target % fs.g.ss != 0 ==> SectOf(fs.g, chain, target, dsc)
    {
      hide *;
      CoreFacts();
      CapacityIs(fs.g, chain);
      PlaceOf(fs.g, target - 1, |chain|);
      ghost var q := ClusterIndex(fs.g, target - 1);
      var r := SectorIndex(fs.g, target - 1);
      InVolume(q);
      ClustersBelowSectors(fs.g);
      ClusterStart(fs.g, chain, q, r);
      PlaceFacts(q, r);
      ClustOfIs(fs.g, chain, target, c, q);
      if target % fs.g.ss != 0 {
        OffBoundary(fs.g, target, |chain|);
        SectOfIs(fs.g, chain, target, q, r);
      }
      dsc, res := fs.g.ClusterSector(c), IntErr;
      if dsc == 0 { return; }
      dsc, res := dsc + r, Ok;
    }

    /** Off a sector boundary, the pointer's byte lies in the current cluster and the buffered sector. */
    lemma PointerInside()
      requires Loop() && fptr % fs.g.ss != 0
      ensures fptr < |content| && AtPlace(fs.g, chain, fptr, clust)
      ensures dsect == SectorAt(fs.g, chain, ClusterIndex(fs.g, fptr), SectorIndex(fs.g, fptr))
    {
      hide Volume.Valid, Geometry.Valid, IsDisk, IsChain, WellFormed, Represents, WindowApart, ChainState,
           SectorAt, GoodChain, BufState, ViewOf, ClusterIndex, SectorIndex;
      CoreFacts();
      OffBoundary(fs.g, fptr, |chain|);
    }
  }

  lemma OffBoundary(g: Geometry, p: int, n: nat)
    requires g.ss > 0 && g.csize > 0 && 0 <= p <= OffsetAt(g, n, 0) && p % g.ss != 0
    ensures 0 < p < OffsetAt(g, n, 0) && ClusterIndex(g, p - 1) == ClusterIndex(g, p)
    ensures 0 <= SectorIndex(g, p - 1) == SectorIndex(g, p) < g.csize
  {
    DivModUnique(n * g.csize * g.ss, n * g.csize, 0, g.ss);
    assert p == p / g.ss * g.ss + p % g.ss;
    DivModUnique(p - 1, p / g.ss, p % g.ss - 1, g.ss);
  }

  lemma SliceOfSlice(c: seq<byte>, off: nat, n: nat, o: nat, k: nat)
    requires off + n <= |c| && o + k <= n
    ensures c[off..off + n][o..o + k] == c[off + o..off + o + k]
  {
    var a := c[off..off + n];
    assert forall i | 0 <= i < n :: a[i] == c[off + i];
  }

  lemma SmallCluster(g: Geometry)
    requires 0 < g.csize <= 128 && 0 < g.ss <= 4096
    ensures 0 < ClusterBytes(g) <= 0x8_0000
  {
    MulLe(g.csize, 128, g.ss);
  }

  /** A target in or after the cluster of byte p - 1 lies after that cluster's start. */
  lemma SeekForward(g: Geometry, p: int, ofs: int)
    requires g.ss > 0 && g.csize > 0 && 0 < p && 0 < ofs && ClusterIndex(g, ofs - 1) >= ClusterIndex(g, p - 1)
    ensures 0 <= OffsetAt(g, ClusterIndex(g, p - 1), 0) < ofs
  {
    hide ClusterIndex, OffsetAt;
    IndexByBytes(g, p - 1);
    IndexByBytes(g, ofs - 1);
    ClusterStarts(g, ClusterIndex(g, ofs - 1), ClusterIndex(g, p - 1));
  }

  lemma ZeroMod(d: int)
    requires d > 0
    ensures 0 % d == 0
  {
  }

  lemma ClustOfIs(g: Geometry, chain: seq<nat>, p: int, clst: int, k: int)
    requires g.ss > 0 && g.csize > 0 && p > 0 && 0 <= k < |chain| && chain[k] == clst && ClusterIndex(g, p - 1) == k
    ensures ClustOf(g, chain, p, clst)
  {
  }

  lemma SectOfIs(g: Geometry, chain: seq<nat>, p: int, k: int, r: int)
    requires g.ss > 0 && g.csize > 0 && p >= 0 && 0 <= k < |chain| && ClusterIndex(g, p) == k && SectorIndex(g, p) == r
    ensures SectOf(g, chain, p, SectorAt(g, chain, k, r))
  {
  }

  /** b is the sector of the content that byte p lies in. */
  ghost predicate ShowsSector(content: seq<byte>, p: int, d: int, b: Sector)
    requires d > 0 && p >= 0
  {
    p - p % d + d <= |content| && b == content[p - p % d..p - p % d + d]
  }

  lemma SoughtIs(g: Geometry, chain: seq<nat>, content: seq<byte>, p: int, c: int, clst: int, dsect: int, dirty: bool,
                 b: Sector, dsect': int, dirty': bool, b': Sector)
    requires g.ss > 0 && g.csize > 0 && p >= 0 && (if p > 0 then ClustOf(g, chain, p, clst) else c == clst)
    requires p % g.ss != 0 ==> SectOf(g, chain, p, dsect')
    requires if p % g.ss != 0 && !SectOf(g, chain, p, dsect) then !dirty' && ShowsSector(content, p, g.ss, b')
             else dsect' == dsect && dirty' == dirty && b' == b
    ensures Sought(g, chain, content, p, c, dsect, dirty, b, clst, dsect', dirty', b')
  {
  }

  lemma BytesOfCluster(g: Geometry)
    requires g.ss > 0
    ensures ClusterBytes(g) % g.ss == 0
  {
    DivModUnique(g.csize * g.ss, g.csize, 0, g.ss);
  }

  lemma WholeSectors(n: nat, d: nat, k: nat)
    requires 0 < d <= n && k <= n / d
    ensures 0 < n / d && k * d <= n && (k > 0 ==> k * d > 0)
  {
    assert n == n / d * d + n % d;
    MulLe(k, n / d, d);
    DivBound(n, 1, d);
  }

  lemma ClusterStart(g: Geometry, chain: seq<nat>, q: int, r: int)
    requires g.Valid() && GoodChain(g, chain) && 0 <= q < |chain| && chain[q] < 0x1_0000_0000
    ensures g.ClusterSector(chain[q]) + r == SectorAt(g, chain, q, r)
    ensures g.ClusterSector(chain[q]) > 0
  {
    hide Geometry.Valid, Geometry.ClusterSector;
    ClusterSectorRange(g, chain[q]);
  }

  /** Byte p lies in the file, in cluster clst. */
  ghost predicate AtPlace(g: Geometry, chain: seq<nat>, p: int, clst: int)
    requires g.ss > 0 && g.csize > 0 && p >= 0
  {
    var q := ClusterIndex(g, p);
    0 <= q < |chain| && chain[q] == clst && 0 <= SectorIndex(g, p) < g.csize
  }

  lemma PlaceBounds(g: Geometry, chain: seq<nat>, p: int, clst: int)
    requires g.ss > 0 && g.csize > 0 && p >= 0 && AtPlace(g, chain, p, clst)
    ensures 0 <= ClusterIndex(g, p) < |chain| && 0 <= SectorIndex(g, p) < g.csize
  {
  }

  lemma BoundaryIs(g: Geometry, p: int)
    requires g.ss > 0 && g.csize > 0 && p >= 0 && p % g.ss == 0 && SectorIndex(g, p) == 0
    ensures OnBoundary(g, p)
  {
  }

  /** p is the first byte of a cluster. */
  ghost predicate OnBoundary(g: Geometry, p: int)
    requires g.ss > 0 && g.csize > 0 && p >= 0
  {
    p % g.ss == 0 && SectorIndex(g, p) == 0
  }

  lemma BoundaryFacts(g: Geometry, chain: seq<nat>, p: nat)
    requires g.ss > 0 && g.csize > 0 && p <= Capacity(g, chain) && OnBoundary(g, p)
    ensures var q := ClusterIndex(g, p);
            && 0 <= q <= |chain| && p == OffsetAt(g, q, 0)
            && (q == |chain| <==> p == Capacity(g, chain))
            && (p > 0 ==> q > 0 && ClusterIndex(g, p - 1) == q - 1)
            && (q == 0 <==> p == 0)
  {
    hide OffsetAt, ClusterBytes;
    NestedBoundary(p, g.ss, g.csize);
    var q := ClusterIndex(g, p);
    OffsetIs(g, q);
    ClusterStarts(g, q, |chain|);
    ClusterStarts(g, |chain|, q);
    ClusterStarts(g, 0, q);
    OffsetIs(g, 0);
  }
}
