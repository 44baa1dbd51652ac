// What every operation on an open file leaves alone: the rest of the disk, the
// rest of the FAT, the agreement of the FAT copies and the free count.
module FatIsolation {
  import opened Words
  import opened FatVolume
  import opened FatChain
  import opened FatAlloc
  import opened FatData

  /** What the volume shows its readers, its stored allocation information, and the clusters of the file. */
  datatype Snap = Snap(image: seq<Sector>, free: dword, last: dword, flag: bool, chain: seq<nat>)

  /** Sector s belongs to the clusters of chain. */
  ghost predicate Occupied(g: Geometry, chain: seq<nat>, s: int) {
    exists q, r | 0 <= q < |chain| && 0 <= r < g.csize :: SectorAt(g, chain, q, r) == s
  }

  /** Sectors outside the FAT area and outside the clusters of chain are the same on d and e. */
  ghost predicate DataKept(g: Geometry, chain: seq<nat>, d: seq<Sector>, e: seq<Sector>) {
    && |d| == |e|
    && forall s | 0 <= s < |d| && !(g.fatbase <= s < g.FatEnd()) && !Occupied(g, chain, s) :: d[s] == e[s]
  }

  /** The clusters of chain are in use. */
  ghost predicate InUse(t: Fat, chain: seq<nat>) {
    forall i | 0 <= i < |chain| :: InRange(t, chain[i]) && t[chain[i]] != 0
  }

  /** The file's clusters only grew, by clusters that were free; no other entry of the table changed. */
  ghost predicate TableKept(t: Fat, u: Fat, a: seq<nat>, b: seq<nat>) {
    && |t| == |u| && a <= b && InUse(u, b)
    && (forall i | |a| <= i < |b| :: InRange(t, b[i]) && t[b[i]] == 0)
    && forall c | 0 <= c < |t| && c !in b :: t[c] == u[c]
  }

  /**
   * Going from a to b, an operation on the file touched nothing but the file, and every cluster the file gained
   * is one free cluster less.
   */
  ghost predicate Kept(g: Geometry, a: Snap, b: Snap) {
    && g.Valid() && IsDisk(g, a.image) && IsDisk(g, b.image)
    && DataKept(g, b.chain, a.image, b.image)
    && TableKept(Table(g, a.image), Table(g, b.image), a.chain, b.chain)
    && (MirrorsAgree(g, a.image) ==> MirrorsAgree(g, b.image))
    && (CountTruthful(Table(g, a.image), a.free) ==> CountTruthful(Table(g, b.image), b.free))
    && FreeCount(Table(g, a.image)) - FreeCount(Table(g, b.image)) == |b.chain| - |a.chain|
    && HintsKept(a, b)
  }

  /**
   * The volume's allocation information: the last cluster taken is remembered, and a known free count stays known and
   * falls with every cluster.
   */
  ghost predicate HintsKept(a: Snap, b: Snap) {
    && a.chain <= b.chain
    && (a.chain == b.chain ==> b.last == a.last)
    && (a.chain != b.chain ==> b.last == b.chain[|b.chain| - 1])
    && (a.free == 0xFFFF_FFFF ==> b.free == 0xFFFF_FFFF)
    && (|b.chain| - |a.chain| <= a.free < 0xFFFF_FFFF ==> b.free == a.free - (|b.chain| - |a.chain|))
    && b.flag == (a.flag || (a.free != 0xFFFF_FFFF && a.chain != b.chain))
  }

  lemma HintsKeptThen(a: Snap, b: Snap, c: Snap)
    requires HintsKept(a, b) && HintsKept(b, c)
    ensures HintsKept(a, c)
  {
    assert |b.chain| == |a.chain| ==> a.chain == b.chain;
    assert |c.chain| == |b.chain| ==> b.chain == c.chain;
  }

  lemma KeptCount(g: Geometry, a: Snap, b: Snap)
    requires Kept(g, a, b)
    ensures g.Valid() && IsDisk(g, a.image) && IsDisk(g, b.image) && a.chain <= b.chain
    ensures FreeCount(Table(g, a.image)) - FreeCount(Table(g, b.image)) == |b.chain| - |a.chain|
  {
    hide Geometry.Valid, IsDisk, MirrorsAgree, CountTruthful, DataKept, Table, InUse, FreeCount;
  }

  lemma KeptSame(g: Geometry, a: Snap)
    requires g.Valid() && IsDisk(g, a.image) && InUse(Table(g, a.image), a.chain)
    ensures Kept(g, a, a)
  {
    hide Geometry.Valid, IsDisk, Occupied, MirrorsAgree, CountTruthful, InUse, Table, FreeCount;
  }

  lemma OccupiedMore(g: Geometry, a: seq<nat>, b: seq<nat>, s: int)
    requires a <= b && Occupied(g, a, s)
    ensures Occupied(g, b, s)
  {
    var q, r :| 0 <= q < |a| && 0 <= r < g.csize && SectorAt(g, a, q, r) == s;
    assert SectorAt(g, b, q, r) == s;
  }

  lemma KeptThen(g: Geometry, a: Snap, b: Snap, c: Snap)
    requires Kept(g, a, b) && Kept(g, b, c)
    ensures Kept(g, a, c)
  {
    hide Geometry.Valid, IsDisk, MirrorsAgree, CountTruthful, DataKept, InUse, Table, FreeCount, HintsKept;
    TableKeptThen(Table(g, a.image), Table(g, b.image), Table(g, c.image), a.chain, b.chain, c.chain);
    DataKeptThen(g, a, b, c);
    HintsKeptThen(a, b, c);
  }

  lemma DataKeptThen(g: Geometry, a: Snap, b: Snap, c: Snap)
    requires DataKept(g, b.chain, a.image, b.image) && DataKept(g, c.chain, b.image, c.image) && b.chain <= c.chain
    ensures DataKept(g, c.chain, a.image, c.image)
  {
    hide Occupied, Geometry.FatEnd;
    forall s | 0 <= s < |a.image| && !(g.fatbase <= s < g.FatEnd()) && !Occupied(g, c.chain, s)
      ensures a.image[s] == c.image[s]
    {
      if Occupied(g, b.chain, s) { OccupiedMore(g, b.chain, c.chain, s); }
    }
  }

  lemma TableKeptThen(t: Fat, u: Fat, v: Fat, a: seq<nat>, b: seq<nat>, c: seq<nat>)
    requires TableKept(t, u, a, b) && TableKept(u, v, b, c)
    ensures TableKept(t, v, a, c)
  {
    forall i | |a| <= i < |c| ensures InRange(t, c[i]) && t[c[i]] == 0 {
      if i < |b| { assert c[i] == b[i]; }
    }
  }

  /** Writing sectors of the file's own clusters. */
  lemma KeptByData(g: Geometry, a: Snap, e: seq<Sector>)
    requires g.Valid() && IsDisk(g, a.image) && IsDisk(g, e) && InUse(Table(g, a.image), a.chain) && |e| == |a.image|
    requires forall s | 0 <= s < |e| && (s < g.database || !Occupied(g, a.chain, s)) :: a.image[s] == e[s]
    ensures Kept(g, a, a.(image := e))
  {
    hide Geometry.Valid, IsDisk, Occupied, MirrorsAgree, CountTruthful, InUse, Table, Geometry.FatEnd, FreeCount;
    DiskLength(g, e);
    TableFrame(g, a.image, e);
  }

  /** Writing one sector of the file. */
  lemma KeptBySector(g: Geometry, a: Snap, s: nat, b: Sector, q: int, r: int)
    requires g.Valid() && IsDisk(g, a.image) && InUse(Table(g, a.image), a.chain) && |b| == g.ss
    requires 0 <= q < |a.chain| && 0 <= r < g.csize && SectorAt(g, a.chain, q, r) == s && g.database <= s < |a.image|
    ensures Kept(g, a, a.(image := a.image[s := b]))
  {
    hide Geometry.Valid, MirrorsAgree, CountTruthful, InUse, Table, SectorAt;
    KeptByData(g, a, a.image[s := b]);
  }

  /** Writing a run of sectors of one cluster. */
  lemma KeptByRun(g: Geometry, a: Snap, s: nat, n: nat, blocks: seq<Sector>, q: int, r: int)
    requires g.Valid() && IsDisk(g, a.image) && InUse(Table(g, a.image), a.chain)
    requires |blocks| == n && forall k | 0 <= k < n :: |blocks[k]| == g.ss
    requires 0 <= q < |a.chain| && 0 <= r && r + n <= g.csize && SectorAt(g, a.chain, q, r) == s
    requires g.database <= s && s + n <= |a.image|
    ensures Kept(g, a, a.(image := a.image[..s] + blocks + a.image[s + n..]))
  {
    hide Geometry.Valid, MirrorsAgree, CountTruthful, InUse, Table, SectorAt;
    var e := a.image[..s] + blocks + a.image[s + n..];
    forall x | s <= x < s + n ensures Occupied(g, a.chain, x) {
      SectorRunFrom(g, a.chain, q, r, r + (x - s));
    }
    KeptByData(g, a, e);
  }

  /** create_chain on the file's last cluster, or on none. */
  lemma KeptByCreate(g: Geometry, a: Snap, b: Snap, hint: nat, c: nat, r: nat, mark: nat)
    requires g.Valid() && IsDisk(g, a.image) && IsDisk(g, b.image) && SameOutsideFat(g, a.image, b.image)
    requires MirrorsAgree(g, a.image) ==> MirrorsAgree(g, b.image)
    requires CountTruthful(Table(g, a.image), a.free) ==> CountTruthful(Table(g, b.image), b.free)
    requires Created(Table(g, a.image), hint, c, r, Table(g, b.image), mark) && mark >= g.nFatent
    requires InUse(Table(g, a.image), a.chain) && (c == 0 || c in a.chain)
    requires b.chain == if Table(g, b.image) == Table(g, a.image) then a.chain else a.chain + [r]
    requires b.last == if Table(g, b.image) == Table(g, a.image) then a.last else r
    requires var counted := Table(g, b.image) != Table(g, a.image) && a.free != 0xFFFF_FFFF;
             && b.free == (if counted then Sub32(a.free, 1) else a.free)
             && b.flag == (a.flag || counted)
    ensures Kept(g, a, b)
  {
    hide Geometry.Valid, IsDisk, Occupied, MirrorsAgree, CountTruthful, Geometry.FatEnd, FreeCount, HintsKept;
    HintsByCreate(a, b, Table(g, b.image) != Table(g, a.image), r);
    var t, u := Table(g, a.image), Table(g, b.image);
    if t != u {
      CreatedTable(t, hint, c, r, u, mark, a.chain);
      CreatedCount(t, hint, c, r, u, mark, a.chain);
    } else {
      TableSame(t, a.chain);
    }
  }

  lemma HintsByCreate(a: Snap, b: Snap, took: bool, r: nat)
    requires b.chain == (if took then a.chain + [r] else a.chain) && b.last == (if took then r else a.last)
    requires var counted := took && a.free != 0xFFFF_FFFF;
             && b.free == (if counted then Sub32(a.free, 1) else a.free)
             && b.flag == (a.flag || counted)
    ensures HintsKept(a, b)
  {
    hide Sub32;
    Sub32Wraps(a.free, 1);
  }

  lemma TableSame(t: Fat, a: seq<nat>)
    requires InUse(t, a)
    ensures TableKept(t, t, a, a)
  {
  }

  lemma CreatedTable(t: Fat, hint: nat, c: nat, r: nat, u: Fat, mark: nat, a: seq<nat>)
    requires Created(t, hint, c, r, u, mark) && t != u && InUse(t, a) && (c == 0 || c in a) && mark >= |t| >= 3
    ensures TableKept(t, u, a, a + [r])
  {
    hide ScanAnswer;
    ScanRange(t, if c == 0 then StartHint(|t|, hint) else c, r);
    var b := a + [r];
    forall x | 0 <= x < |t| && x !in b ensures t[x] == u[x] {
      assert b[|a|] == r;
      if c in a {
        var i :| 0 <= i < |a| && a[i] == c;
        assert b[i] == c;
      }
    }
  }

  lemma CreatedCount(t: Fat, hint: nat, c: nat, r: nat, u: Fat, mark: nat, a: seq<nat>)
    requires Created(t, hint, c, r, u, mark) && t != u && InUse(t, a) && (c == 0 || c in a) && mark >= |t| >= 3
    ensures FreeCount(u) == FreeCount(t) - 1
  {
    hide ScanAnswer, FreeCount;
    ScanRange(t, if c == 0 then StartHint(|t|, hint) else c, r);
    FreeCountUpdate(t, r, mark);
    if c != 0 {
      var i :| 0 <= i < |a| && a[i] == c;
      assert InRange(t, a[i]) && t[a[i]] != 0;
      FreeCountUpdate(t[r := mark], c, r);
    }
  }

  // ----- What that means for everybody else -----

  /** o shares no cluster with the file. */
  ghost predicate Apart(o: seq<nat>, chain: seq<nat>) {
    forall i | 0 <= i < |o| :: o[i] !in chain
  }

  ghost predicate SectorSame(d: seq<Sector>, e: seq<Sector>, s: int) {
    0 <= s < |d| == |e| && d[s] == e[s]
  }

  /** Every sector of the chain o is the same on d and e. */
  ghost predicate SectorsSame(g: Geometry, o: seq<nat>, d: seq<Sector>, e: seq<Sector>) {
    forall q, r | 0 <= q < |o| && 0 <= r < g.csize :: SectorSame(d, e, SectorAt(g, o, q, r))
  }

  /**
   * Isolation: every other chain of the table is still a chain afterwards, shares no cluster with the
   * grown file, and all its sectors are as they were.
   */
  lemma OthersUntouched(g: Geometry, a: Snap, b: Snap, o: seq<nat>)
    requires Kept(g, a, b) && IsChain(Table(g, a.image), o) && Apart(o, a.chain)
    ensures IsChain(Table(g, b.image), o) && Apart(o, b.chain)
    ensures SectorsSame(g, o, a.image, b.image)
  {
    hide Geometry.Valid, IsDisk, MirrorsAgree, CountTruthful, IsChain, Occupied, Table, SectorAt, FreeCount;
    OtherChain(Table(g, a.image), Table(g, b.image), a.chain, b.chain, o);
    OtherIsGood(g, Table(g, a.image), o);
    OtherIsGood(g, Table(g, b.image), o);
    forall q, r | 0 <= q < |o| && 0 <= r < g.csize ensures SectorSame(a.image, b.image, SectorAt(g, o, q, r)) {
      SectorInData(g, o, q, r);
      DiskLength(g, a.image);
      NotOccupied(g, b.chain, o, q, r);
    }
  }

  lemma DiskLength(g: Geometry, d: seq<Sector>)
    requires g.Valid() && IsDisk(g, d)
    ensures g.database <= g.SectorCount() <= |d|
  {
    MulLe(0, g.nFatent - 2, g.csize);
  }

  lemma OtherChain(t: Fat, u: Fat, a: seq<nat>, b: seq<nat>, o: seq<nat>)
    requires TableKept(t, u, a, b) && IsChain(t, o) && Apart(o, a)
    ensures IsChain(u, o) && Apart(o, b)
  {
    forall i | 0 <= i < |o| ensures o[i] !in b {
      ChainStep(t, o, i);
    }
  }

  lemma OtherIsGood(g: Geometry, t: Fat, o: seq<nat>)
    requires IsChain(t, o) && |t| == g.nFatent
    ensures GoodChain(g, o)
  {
    ChainDistinct(t, o);
    forall q | 0 <= q < |o| ensures 2 <= o[q] < g.nFatent { assert InRange(t, o[q]); }
  }

  /** Sectors of different clusters are different. */
  lemma NotOccupied(g: Geometry, b: seq<nat>, o: seq<nat>, q: int, r: int)
    requires Apart(o, b) && 0 <= q < |o| && 0 <= r < g.csize
    ensures !Occupied(g, b, SectorAt(g, o, q, r))
  {
    hide SectorAt;
    if Occupied(g, b, SectorAt(g, o, q, r)) {
      var x, y :| 0 <= x < |b| && 0 <= y < g.csize && SectorAt(g, b, x, y) == SectorAt(g, o, q, r);
      SameCluster(g, b, x, y, o, q, r);
    }
  }

  lemma SameCluster(g: Geometry, b: seq<nat>, x: int, y: int, o: seq<nat>, q: int, r: int)
    requires 0 <= x < |b| && 0 <= y < g.csize && 0 <= q < |o| && 0 <= r < g.csize
    requires SectorAt(g, b, x, y) == SectorAt(g, o, q, r)
    ensures b[x] == o[q]
  {
    var m: int, n: int := b[x], o[q];
    DigitUnique(m - 2, y, n - 2, r, g.csize);
  }
}
