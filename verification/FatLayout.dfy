// Where things lie on the disk, in bytes and numbers: the packed FAT entries and
// the bytes of a file (dfs/ff.c: get_fat, put_fat, clust2sect, f_read).
module FatLayout {
  import opened Words
  import opened FatVolume
  import opened FatData

  /** Byte i of the first FAT copy is byte i of its sectors, one after the other. */
  lemma FatByteIs(g: Geometry, d: seq<Sector>, s: nat, o: nat)
    requires g.Valid() && IsDisk(g, d) && s < g.fsize && o < g.ss
    ensures s * g.ss + o < g.fsize * g.ss
    ensures g.fatbase + s < |d| && |d[g.fatbase + s]| == g.ss
    ensures FatByte(g, d, s * g.ss + o) == d[g.fatbase + s][o]
  {
    hide Geometry.Valid, IsDisk;
    DivModUnique(s * g.ss + o, s, o, g.ss);
    DivBound(s * g.ss + o, g.fsize, g.ss);
    FatByteAt(g, d, s * g.ss + o);
  }

  /** Two 12-bit entries in three bytes, low byte first; the last entry of an odd number in one and a half. */
  lemma Layout12(g: Geometry, d: seq<Sector>, c: nat)
    requires g.Valid() && IsDisk(g, d) && g.fatType == Fat12 && c % 2 == 0 && c < g.nFatent
    ensures var i := c / 2 * 3;
            && i + 1 < g.FatBytes()
            && (c + 1 == g.nFatent ==> Entry(g, d, c) == FatByte(g, d, i) + FatByte(g, d, i + 1) % 16 * 0x100)
            && (c + 1 < g.nFatent ==>
                  && i + 2 < g.FatBytes() && Entry(g, d, c) < 0x1000
                  && Entry(g, d, c) + 0x1000 * Entry(g, d, c + 1) ==
                     FatByte(g, d, i) + 0x100 * FatByte(g, d, i + 1) + 0x1_0000 * FatByte(g, d, i + 2))
  {
    hide Geometry.Valid, IsDisk, FatByte, Value12, Entry, Geometry.FatBytes, Geometry.EntrySpan;
    var i := c / 2 * 3;
    Entry12(g, d, c);
    assert c + c / 2 == i;
    var b0, b1 := FatByte(g, d, i), FatByte(g, d, i + 1);
    EvenValue(c, b0, b1);
    if c + 1 < g.nFatent {
      Entry12(g, d, c + 1);
      assert c + 1 + (c + 1) / 2 == i + 1;
      PairOfValues(c, b0, b1, FatByte(g, d, i + 2));
    }
  }

  lemma EvenValue(c: nat, b0: byte, b1: byte)
    requires c % 2 == 0
    ensures Value12(c, b0, b1) == b0 + b1 % 16 * 0x100 < 0x1000
  {
    Pair12(b0, b1);
  }

  lemma PairOfValues(c: nat, b0: byte, b1: byte, b2: byte)
    requires c % 2 == 0
    ensures Value12(c, b0, b1) + 0x1000 * Value12(c + 1, b1, b2) == b0 + 0x100 * b1 + 0x1_0000 * b2
  {
    hide Pair;
    Pair12(b0, b1);
    Pair12(b1, b2);
    assert (c + 1) % 2 == 1;
  }

  /** A 16-bit entry is two bytes, low byte first. */
  lemma Layout16(g: Geometry, d: seq<Sector>, c: nat)
    requires g.Valid() && IsDisk(g, d) && g.fatType == Fat16 && c < g.nFatent
    ensures 2 * c + 1 < g.FatBytes()
    ensures Entry(g, d, c) == FatByte(g, d, 2 * c) + 0x100 * FatByte(g, d, 2 * c + 1)
  {
    EntryFits(g, c);
  }

  /** A 32-bit entry is four bytes, low byte first; the upper half of the last is not part of its value. */
  lemma Layout32(g: Geometry, d: seq<Sector>, c: nat)
    requires g.Valid() && IsDisk(g, d) && g.fatType == Fat32 && c < g.nFatent
    ensures 4 * c + 3 < g.FatBytes()
    ensures Entry(g, d, c) == FatByte(g, d, 4 * c) + 0x100 * FatByte(g, d, 4 * c + 1)
                              + 0x1_0000 * FatByte(g, d, 4 * c + 2)
                              + 0x100_0000 * (FatByte(g, d, 4 * c + 3) % 16)
    ensures Reserved(g, d, c) == FatByte(g, d, 4 * c + 3) / 16
  {
    EntryFits(g, c);
    hide Geometry.Valid, IsDisk, FatByte, Quad;
    var b0, b1, b2, b3 := FatByte(g, d, 4 * c), FatByte(g, d, 4 * c + 1), FatByte(g, d, 4 * c + 2),
                          FatByte(g, d, 4 * c + 3);
    QuadLow28(b0, b1, b2, b3);
    QuadIs(b0, b1, b2, b3 % 16);
  }

  lemma QuadIs(b0: int, b1: int, b2: int, b3: int)
    ensures Quad(b0, b1, b2, b3) == b0 + 0x100 * b1 + 0x1_0000 * b2 + 0x100_0000 * b3
  {
  }

  /** The end mark as it is stored. */
  lemma EndMarks(g: Geometry)
    ensures END_MARK % g.EntrySpan() ==
            match g.fatType
            case Fat12 => 0xFFF
            case Fat16 => 0xFFFF
            case Fat32 => 0x0FFF_FFFF
  {
  }

  /** Byte p of a file: its sector in the cluster that the chain names, and its place in that sector. */
  lemma ByteOnDisk(g: Geometry, chain: seq<nat>, view: seq<Sector>, content: seq<byte>, p: nat)
    requires g.Valid() && IsDisk(g, view) && Represents(g, chain, view, content) && p < |content|
    ensures |content| == |chain| * g.csize * g.ss && p / g.ss / g.csize < |chain|
    ensures var s := g.database + (chain[p / g.ss / g.csize] - 2) * g.csize + p / g.ss % g.csize;
            && 0 <= s < |view| && p % g.ss < |view[s]|
            && content[p] == view[s][p % g.ss]
  {
    Sizes(g);
    hide Geometry.Valid;
    OffsetIs(g, |chain|);
    PlaceOf(g, p, |chain|);
    var q, r := ClusterIndex(g, p), SectorIndex(g, p);
    assert Holds(g, chain, view, content, q, r);
    hide OffsetAt;
    var o := OffsetAt(g, q, r);
    assert content[o..o + g.ss][p % g.ss] == content[p];
  }

  lemma Sizes(g: Geometry)
    requires g.Valid()
    ensures g.ss >= 512 && g.csize >= 1
  {
  }
}
