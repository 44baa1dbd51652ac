// How the bytes of a file lie on the sectors of its cluster chain.  Values only; FatFile uses it.
module FatData {
  import opened Words
  import opened FatVolume

  /** Every element of chain is a cluster of the volume, none twice. */
  ghost predicate GoodChain(g: Geometry, chain: seq<nat>) {
    && (forall q | 0 <= q < |chain| :: 2 <= chain[q] < g.nFatent)
    && (forall i, j | 0 <= i < j < |chain| :: chain[i] != chain[j])
  }

  /** Sector r of cluster q of the chain. */
  ghost function SectorAt(g: Geometry, chain: seq<nat>, q: int, r: int): int
    requires 0 <= q < |chain|
  {
    g.database + (chain[q] - 2) * g.csize + r
  }

  /** The file offset where that sector starts. */
  ghost function OffsetAt(g: Geometry, q: int, r: int): int {
    Times(Radix(q, r, g.csize), g.ss)
  }

  ghost function Radix(q: int, r: int, d: int): int {
    q * d + r
  }

  ghost function Times(a: int, d: int): int {
    a * d
  }

  lemma TimesIs(a: int, d: int)
    ensures Times(a, d) == a * d
  {
  }

  lemma TimesMore(n: nat, d: nat)
    requires n > 0
    ensures Times(n, d) == Times(n - 1, d) + d >= d
    ensures Times(0, d) == 0
  {
    assert n * d == (n - 1) * d + d && (n - 1) * d >= 0;
  }

  /** The cluster size in bytes (bcs), and offsets divided and rounded down by it. */
  function ClusterBytes(g: Geometry): int {
    g.csize * g.ss
  }

  function ClusterNumber(g: Geometry, p: int): int
    requires ClusterBytes(g) > 0
  {
    p / ClusterBytes(g)
  }

  function ClusterBase(g: Geometry, p: int): int
    requires ClusterBytes(g) > 0
  {
    p / ClusterBytes(g) * ClusterBytes(g)
  }

  /** Whole sectors in n bytes. */
  function SectorsIn(g: Geometry, n: int): int
    requires g.ss > 0
  {
    n / g.ss
  }

  ghost function Capacity(g: Geometry, chain: seq<nat>): int {
    OffsetAt(g, |chain|, 0)
  }

  lemma CapacityIs(g: Geometry, chain: seq<nat>)
    ensures Capacity(g, chain) == OffsetAt(g, |chain|, 0)
  {
  }

  /** The view of the disk holds content along the chain. */
  ghost predicate Represents(g: Geometry, chain: seq<nat>, view: seq<Sector>, content: seq<byte>) {
    && |content| == Capacity(g, chain)
    && forall q, r | 0 <= q < |chain| && 0 <= r < g.csize :: Holds(g, chain, view, content, q, r)
  }

  ghost predicate Holds(g: Geometry, chain: seq<nat>, view: seq<Sector>, content: seq<byte>, q: int, r: int)
    requires 0 <= q < |chain|
  {
    && 0 <= SectorAt(g, chain, q, r) < |view|
    && 0 <= OffsetAt(g, q, r) <= OffsetAt(g, q, r) + g.ss <= |content|
    && view[SectorAt(g, chain, q, r)] == content[OffsetAt(g, q, r)..OffsetAt(g, q, r) + g.ss]
  }

  lemma SectorInData(g: Geometry, chain: seq<nat>, q: int, r: int)
    requires g.Valid() && GoodChain(g, chain) && 0 <= q < |chain| && 0 <= r < g.csize
    ensures g.FatEnd() <= g.database <= SectorAt(g, chain, q, r) < g.SectorCount()
  {
    assert (chain[q] - 2) * g.csize + g.csize == (chain[q] - 1) * g.csize;
    MulLe(chain[q] - 1, g.nFatent - 2, g.csize);
  }

  /** Different places of a file are different sectors. */
  lemma SectorInjective(g: Geometry, chain: seq<nat>, q: int, r: int, q': int, r': int)
    requires GoodChain(g, chain) && 0 <= q < |chain| && 0 <= r < g.csize && 0 <= q' < |chain| && 0 <= r' < g.csize
    requires SectorAt(g, chain, q, r) == SectorAt(g, chain, q', r')
    ensures q == q' && r == r'
  {
    DigitUnique(chain[q] - 2, r, chain[q'] - 2, r', g.csize);
  }

  lemma OffsetIs(g: Geometry, q: int)
    ensures OffsetAt(g, q, 0) == q * g.csize * g.ss
  {
  }

  /** The place of byte p: its cluster's position in the chain and its sector within the cluster. */
  function ClusterIndex(g: Geometry, p: int): int
    requires g.ss > 0 && g.csize > 0 && p >= 0
  {
    p / g.ss / g.csize
  }

  lemma IndexMonotone(g: Geometry, p: int, q: int)
    requires g.ss > 0 && g.csize > 0 && 0 <= p <= q
    ensures 0 <= ClusterIndex(g, p) <= ClusterIndex(g, q)
  {
    DivMonotone(p, q, g.ss);
    DivMonotone(p / g.ss, q / g.ss, g.csize);
  }

  lemma DivMonotone(p: nat, q: nat, d: nat)
    requires d > 0 && p <= q
    ensures 0 <= p / d <= q / d
  {
    DivBound(p, q / d + 1, d);
    DivBound(q, q / d + 1, d);
  }

  function SectorIndex(g: Geometry, p: int): int
    requires g.ss > 0 && g.csize > 0 && p >= 0
  {
    p / g.ss % g.csize
  }

  /** The place that holds byte p of the file. */
  lemma PlaceOf(g: Geometry, p: nat, n: nat)
    requires g.csize > 0 && g.ss > 0 && p < OffsetAt(g, n, 0)
    ensures 0 <= ClusterIndex(g, p) < n && 0 <= SectorIndex(g, p) < g.csize
    ensures OffsetAt(g, ClusterIndex(g, p), SectorIndex(g, p)) + p % g.ss == p
  {
    var s := p / g.ss;
    assert p == s * g.ss + p % g.ss;
    assert s == s / g.csize * g.csize + s % g.csize;
    DivBound(p, n * g.csize, g.ss);
    DivBound(s, n, g.csize);
  }

  lemma RepresentsLength(g: Geometry, chain: seq<nat>, view: seq<Sector>, content: seq<byte>)
    requires Represents(g, chain, view, content)
    ensures |content| == Capacity(g, chain)
  {
  }

  /** A view that agrees on the data area represents the same content. */
  lemma RepresentsFrame(g: Geometry, chain: seq<nat>, view: seq<Sector>, w: seq<Sector>, content: seq<byte>)
    requires g.Valid() && GoodChain(g, chain) && Represents(g, chain, view, content) && |w| == |view|
    requires forall s | g.database <= s < |view| :: w[s] == view[s]
    ensures Represents(g, chain, w, content)
  {
    hide SectorAt, OffsetAt, Geometry.Valid, GoodChain;
    forall q, r | 0 <= q < |chain| && 0 <= r < g.csize ensures Holds(g, chain, w, content, q, r) {
      assert Holds(g, chain, view, content, q, r);
      SectorInData(g, chain, q, r);
    }
  }

  /** Appending cluster c to the chain appends whatever its sectors hold to the content. */
  lemma AppendCluster(g: Geometry, chain: seq<nat>, c: nat, view: seq<Sector>, content: seq<byte>)
    requires g.Valid() && IsDisk(g, view) && GoodChain(g, chain + [c]) && Represents(g, chain, view, content)
    ensures var s := SectorAt(g, chain + [c], |chain|, 0);
            && 0 <= s <= s + g.csize <= |view|
            && Represents(g, chain + [c], view, content + Flat(view[s..s + g.csize]))
  {
    hide SectorAt, OffsetAt, Geometry.Valid, GoodChain, Flat, Times;
    var longer := chain + [c];
    var s := SectorAt(g, longer, |chain|, 0);
    ClusterSize(g);
    ClusterSpan(g, longer, |chain|);
    var news := view[s..s + g.csize];
    var grown := content + Flat(news);
    FlatLength(news, g.ss);
    forall q, r | 0 <= q < |longer| && 0 <= r < g.csize ensures Holds(g, longer, view, grown, q, r) {
      if q < |chain| {
        assert Holds(g, chain, view, content, q, r);
        SectorOfPrefix(g, chain, c, q, r);
        SlicePrefix(content, Flat(news), OffsetAt(g, q, r), g.ss);
      } else {
        ClusterSpan(g, longer, q);
        SectorRun(g, longer, q, r);
        OffsetRun(g, q, r);
        TimesIs(r, g.ss);
        FlatBlock(news, g.ss, r);
        SliceSuffix(content, Flat(news), r * g.ss, g.ss);
      }
    }
    OffsetRun(g, |chain|, g.csize);
    TimesIs(g.csize, g.ss);
  }

  lemma SlicePrefix(a: seq<byte>, b: seq<byte>, o: nat, n: nat)
    requires o + n <= |a|
    ensures (a + b)[o..o + n] == a[o..o + n]
  {
  }

  lemma SliceSuffix(a: seq<byte>, b: seq<byte>, o: nat, n: nat)
    requires o + n <= |b|
    ensures (a + b)[|a| + o..|a| + o + n] == b[o..o + n]
  {
  }

  lemma ClusterSize(g: Geometry)
    requires g.Valid()
    ensures 1 <= g.csize <= 128 && 512 <= g.ss <= 4096 && g.database >= 1
  {
  }

  lemma ClusterSpan(g: Geometry, chain: seq<nat>, q: int)
    requires g.Valid() && GoodChain(g, chain) && 0 <= q < |chain|
    ensures g.database <= SectorAt(g, chain, q, 0) <= SectorAt(g, chain, q, 0) + g.csize <= g.SectorCount()
  {
    SectorInData(g, chain, q, 0);
    SectorInData(g, chain, q, g.csize - 1);
  }

  lemma SectorOfPrefix(g: Geometry, chain: seq<nat>, c: nat, q: int, r: int)
    requires 0 <= q < |chain|
    ensures SectorAt(g, chain + [c], q, r) == SectorAt(g, chain, q, r)
  {
  }

  lemma SectorRun(g: Geometry, chain: seq<nat>, q: int, r: int)
    requires 0 <= q < |chain|
    ensures SectorAt(g, chain, q, r) == SectorAt(g, chain, q, 0) + r
  {
  }

  lemma OffsetRun(g: Geometry, q: int, r: int)
    ensures OffsetAt(g, q, r) == OffsetAt(g, q, 0) + Times(r, g.ss)
    ensures OffsetAt(g, q + 1, 0) == OffsetAt(g, q, 0) + ClusterBytes(g)
  {
    assert (q * g.csize + r) * g.ss == q * g.csize * g.ss + r * g.ss;
    assert (q + 1) * g.csize * g.ss == q * g.csize * g.ss + g.csize * g.ss;
  }

  /** A place of the file is one of n consecutive places starting at (q, r), or its range lies outside theirs. */
  lemma OffsetRunDisjoint(g: Geometry, q: int, r: int, n: nat, q': int, r': int)
    requires 0 <= q && 0 <= r && r + n <= g.csize && 0 <= q' && 0 <= r' < g.csize
    ensures if q' == q && r <= r' < r + n then OffsetAt(g, q', r') == OffsetAt(g, q, r) + Times(r' - r, g.ss)
            else
              || OffsetAt(g, q', r') + g.ss <= OffsetAt(g, q, r)
              || OffsetAt(g, q, r) + Times(n, g.ss) <= OffsetAt(g, q', r')
  {
    hide Times, Radix;
    RadixGap(q', r', q, r, n, g.csize);
    TimesGap(Radix(q', r', g.csize), Radix(q, r, g.csize), n, g.ss);
  }

  lemma RadixGap(q': int, r': int, q: int, r: int, n: nat, d: int)
    requires 0 <= r && r + n <= d && 0 <= r' < d
    ensures Radix(q, r, d) <= Radix(q', r', d) < Radix(q, r, d) + n <==> q' == q && r <= r' < r + n
    ensures q' == q ==> Radix(q', r', d) == Radix(q, r, d) + (r' - r)
  {
    var k := q' * d + r' - (q * d + r);
    if 0 <= k < n { DigitUnique(q', r', q, r + k, d); }
  }

  lemma TimesGap(a: int, b: int, n: nat, d: nat)
    ensures a < b ==> Times(a, d) + d <= Times(b, d)
    ensures b + n <= a ==> Times(b, d) + Times(n, d) <= Times(a, d)
    ensures Times(a, d) == Times(b, d) + Times(a - b, d)
  {
    if a < b { MulLe(0, b - a - 1, d); }
    if b + n <= a { MulLe(n, a - b, d); }
  }

  /** Storing n sectors of one cluster at once changes exactly their range of the content. */
  lemma PutRun(g: Geometry, chain: seq<nat>, view: seq<Sector>, content: seq<byte>, q: int, r: int, n: nat,
               data: seq<byte>)
    requires g.csize > 0 && GoodChain(g, chain) && Represents(g, chain, view, content)
    requires 0 <= q < |chain| && 0 <= r && 0 < n && r + n <= g.csize && |data| == n * g.ss
    ensures var s, o := SectorAt(g, chain, q, r), OffsetAt(g, q, r);
            && 0 <= s <= s + n <= |view| && 0 <= o <= o + n * g.ss <= |content|
            && Represents(g, chain, view[..s] + Blocks(data, n, g.ss) + view[s + n..], Overwrite(content, o, data))
  {
    hide SectorAt, OffsetAt, Blocks, Block, GoodChain, Overwrite, Holds, Times;
    TimesIs(n, g.ss);
    RunBounds(g, chain, view, content, q, r, n);
    var s, o := SectorAt(g, chain, q, r), OffsetAt(g, q, r);
    var v := view[..s] + Blocks(data, n, g.ss) + view[s + n..];
    var c := Overwrite(content, o, data);
    forall q', r' | 0 <= q' < |chain| && 0 <= r' < g.csize ensures Holds(g, chain, v, c, q', r') {
      assert Holds(g, chain, view, content, q', r');
      PutRunAt(g, chain, view, content, q, r, n, data, q', r');
    }
  }

  lemma RunBounds(g: Geometry, chain: seq<nat>, view: seq<Sector>, content: seq<byte>, q: int, r: int, n: nat)
    requires Represents(g, chain, view, content)
    requires 0 <= q < |chain| && 0 <= r && 0 < n && r + n <= g.csize
    ensures var s, o := SectorAt(g, chain, q, r), OffsetAt(g, q, r);
            0 <= s <= s + n <= |view| && 0 <= o <= o + Times(n, g.ss) <= |content|
  {
    hide SectorAt, OffsetAt, Times;
    assert Holds(g, chain, view, content, q, r);
    assert Holds(g, chain, view, content, q, r + n - 1);
    SectorRunFrom(g, chain, q, r, r + n - 1);
    OffsetRunDisjoint(g, q, r, n, q, r + n - 1);
    TimesMore(n, g.ss);
  }

  lemma PutRunAt(g: Geometry, chain: seq<nat>, view: seq<Sector>, content: seq<byte>, q: int, r: int, n: nat,
                 data: seq<byte>, q': int, r': int)
    requires GoodChain(g, chain) && |data| == n * g.ss
    requires 0 <= q < |chain| && 0 <= r && 0 < n && r + n <= g.csize && 0 <= q' < |chain| && 0 <= r' < g.csize
    requires var s, o := SectorAt(g, chain, q, r), OffsetAt(g, q, r);
             0 <= s <= s + n <= |view| && 0 <= o <= o + n * g.ss <= |content|
    requires Holds(g, chain, view, content, q', r')
    ensures var s, o := SectorAt(g, chain, q, r), OffsetAt(g, q, r);
            Holds(g, chain, view[..s] + Blocks(data, n, g.ss) + view[s + n..], Overwrite(content, o, data), q', r')
  {
    hide SectorAt, OffsetAt, Blocks, Block, GoodChain, Times;
    TimesIs(n, g.ss);
    OffsetRunDisjoint(g, q, r, n, q', r');
    RunSector(g, chain, q, r, n, q', r');
    var s, o := SectorAt(g, chain, q, r), OffsetAt(g, q, r);
    var s', o' := SectorAt(g, chain, q', r'), OffsetAt(g, q', r');
    if q' == q && r <= r' < r + n {
      PutRunInside(g, content, data, n, o, r' - r);
      assert (view[..s] + Blocks(data, n, g.ss) + view[s + n..])[s'] == Blocks(data, n, g.ss)[r' - r];
    } else {
      assert (view[..s] + Blocks(data, n, g.ss) + view[s + n..])[s'] == view[s'];
      assert Overwrite(content, o, data)[o'..o' + g.ss] == content[o'..o' + g.ss];
    }
  }

  lemma PutRunInside(g: Geometry, content: seq<byte>, data: seq<byte>, n: nat, o: nat, k: nat)
    requires |data| == n * g.ss && k < n && o + n * g.ss <= |content|
    ensures 0 <= Times(k, g.ss) && o + Times(k, g.ss) + g.ss <= |content|
    ensures Overwrite(content, o, data)[o + Times(k, g.ss)..o + Times(k, g.ss) + g.ss] == Blocks(data, n, g.ss)[k]
  {
    BlockBounds(n, g.ss, k);
    assert Blocks(data, n, g.ss)[k] == data[k * g.ss..k * g.ss + g.ss];
  }

  lemma SectorRunFrom(g: Geometry, chain: seq<nat>, q: int, r: int, r': int)
    requires 0 <= q < |chain|
    ensures SectorAt(g, chain, q, r') == SectorAt(g, chain, q, r) + (r' - r)
  {
  }

  /** The sectors s .. s + n - 1 of a run are exactly the run's own places. */
  lemma RunSector(g: Geometry, chain: seq<nat>, q: int, r: int, n: nat, q': int, r': int)
    requires GoodChain(g, chain) && 0 <= q < |chain| && 0 <= r && r + n <= g.csize && 0 <= q' < |chain|
             && 0 <= r' < g.csize
    ensures SectorAt(g, chain, q, r) <= SectorAt(g, chain, q', r') < SectorAt(g, chain, q, r) + n
            <==> q' == q && r <= r' < r + n
    ensures q' == q ==> SectorAt(g, chain, q', r') == SectorAt(g, chain, q, r) + (r' - r)
  {
    var k := SectorAt(g, chain, q', r') - SectorAt(g, chain, q, r);
    if 0 <= k < n {
      SectorRunFrom(g, chain, q, r, r + k);
      SectorInjective(g, chain, q, r + k, q', r');
    }
  }

  lemma GoodPrefix(g: Geometry, chain: seq<nat>, c: nat)
    requires GoodChain(g, chain + [c])
    ensures GoodChain(g, chain)
  {
    var longer := chain + [c];
    assert forall q | 0 <= q < |chain| :: chain[q] == longer[q];
  }

  /** Every chain holds some content: the bytes of its sectors in order. */
  lemma {:induction false} SomeContent(g: Geometry, chain: seq<nat>, view: seq<Sector>) returns (content: seq<byte>)
    requires g.Valid() && IsDisk(g, view) && GoodChain(g, chain)
    ensures Represents(g, chain, view, content)
    decreases |chain|
  {
    if |chain| == 0 {
      content := [];
    } else {
      var n := |chain| - 1;
      assert chain == chain[..n] + [chain[n]];
      GoodPrefix(g, chain[..n], chain[n]);
      var front := SomeContent(g, chain[..n], view);
      AppendCluster(g, chain[..n], chain[n], view, front);
      var s := SectorAt(g, chain[..n] + [chain[n]], n, 0);
      content := front + Flat(view[s..s + g.csize]);
    }
  }

  /** Storing one sector of the file. */
  lemma PutOne(g: Geometry, chain: seq<nat>, view: seq<Sector>, content: seq<byte>, q: int, r: int, data: Sector)
    requires g.csize > 0 && GoodChain(g, chain) && Represents(g, chain, view, content)
    requires 0 <= q < |chain| && 0 <= r < g.csize && |data| == g.ss
    ensures 0 <= SectorAt(g, chain, q, r) < |view| && 0 <= OffsetAt(g, q, r) && OffsetAt(g, q, r) + g.ss <= |content|
    ensures Represents(g, chain, view[SectorAt(g, chain, q, r) := data], Overwrite(content, OffsetAt(g, q, r), data))
  {
    hide *;
    TimesIs(1, g.ss);
    PutRun(g, chain, view, content, q, r, 1, data);
    OneBlock(view, SectorAt(g, chain, q, r), data, g.ss);
  }

  /** Patching a sector's range is patching the content. */
  lemma OverwritePatched(content: seq<byte>, off: nat, n: nat, o: nat, bs: seq<byte>)
    requires off + n <= |content| && o + |bs| <= n
    ensures Overwrite(content, off, Overwrite(content[off..off + n], o, bs)) == Overwrite(content, off + o, bs)
  {
  }

  /** Replacing a sector's range by data that starts with bs. */
  lemma OverwriteStart(content: seq<byte>, off: nat, data: seq<byte>, n: nat)
    requires off + |data| <= |content| && n <= |data|
    ensures Overwrite(content, off, data)[..off + n] == content[..off] + data[..n]
    ensures Overwrite(content, off, data)[off + |data|..] == content[off + |data|..]
  {
  }

  /** n consecutive sectors of one cluster, read in order, are their range of the content. */
  lemma {:induction false} GetRun(g: Geometry, chain: seq<nat>, view: seq<Sector>, content: seq<byte>, q: int, r: int,
                                  n: nat)
    requires Represents(g, chain, view, content)
    requires 0 <= q < |chain| && 0 <= r && r + n <= g.csize && 0 < n
    ensures var s, o := SectorAt(g, chain, q, r), OffsetAt(g, q, r);
            && 0 <= s <= s + n <= |view| && 0 <= o <= o + Times(n, g.ss) <= |content|
            && Flat(view[s..s + n]) == content[o..o + Times(n, g.ss)]
    decreases n
  {
    hide SectorAt, OffsetAt, Flat, Represents, Holds, Times;
    RunBounds(g, chain, view, content, q, r, n);
    var s, o := SectorAt(g, chain, q, r), OffsetAt(g, q, r);
    GetOne(g, chain, view, content, q, r + n - 1);
    SectorRunFrom(g, chain, q, r, r + n - 1);
    OffsetRunDisjoint(g, q, r, n, q, r + n - 1);
    TimesMore(n, g.ss);
    FlatMore(view[s..s + n]);
    assert view[s..s + n][..n - 1] == view[s..s + n - 1];
    if n == 1 {
      FlatNone();
    } else {
      GetRun(g, chain, view, content, q, r, n - 1);
    }
    Cut(content, o, o + Times(n - 1, g.ss), o + Times(n, g.ss));
  }

  lemma GetOne(g: Geometry, chain: seq<nat>, view: seq<Sector>, content: seq<byte>, q: int, r: int)
    requires Represents(g, chain, view, content) && 0 <= q < |chain| && 0 <= r < g.csize
    ensures var s, o := SectorAt(g, chain, q, r), OffsetAt(g, q, r);
            && 0 <= s < |view| && 0 <= o <= o + g.ss <= |content| && view[s] == content[o..o + g.ss]
  {
    hide SectorAt, OffsetAt;
    assert Holds(g, chain, view, content, q, r);
  }

  /** n bytes from p on that stay within p's sector. */
  lemma WithinSector(g: Geometry, p: int, n: int)
    requires g.ss > 0 && g.csize > 0 && p >= 0 && 0 < n && p % g.ss + n <= g.ss
    ensures ClusterIndex(g, p + n - 1) == ClusterIndex(g, p)
    ensures p % g.ss + n == g.ss <==> (p + n) % g.ss == 0
    ensures (p + n) % g.ss != 0 ==>
              ClusterIndex(g, p + n) == ClusterIndex(g, p) && SectorIndex(g, p + n) == SectorIndex(g, p)
  {
    StayInBlock(p, n, g.ss);
  }

  /** A sector boundary inside a cluster: the byte before it lies in the same cluster. */
  lemma InsideCluster(g: Geometry, p: int, n: nat)
    requires g.ss > 0 && g.csize > 0 && 0 <= p <= OffsetAt(g, n, 0) && p % g.ss == 0 && SectorIndex(g, p) != 0
    ensures 0 < p < OffsetAt(g, n, 0) && ClusterIndex(g, p - 1) == ClusterIndex(g, p)
  {
    hide OffsetAt, ClusterIndex, SectorIndex, Times, Radix;
    PlaceIs(g, n, 0, 0);
    PlaceIs(g, 0, 0, 0);
    OffsetZero(g);
    PlaceOf(g, p, n);
    var q, r := ClusterIndex(g, p), SectorIndex(g, p);
    PlaceIs(g, q, r - 1, g.ss - 1);
    OffsetNext(g, q, r - 1);
  }

  lemma OffsetZero(g: Geometry)
    ensures OffsetAt(g, 0, 0) == 0
  {
  }

  lemma OffsetNext(g: Geometry, q: int, r: int)
    ensures OffsetAt(g, q, r + 1) == OffsetAt(g, q, r) + g.ss
  {
    assert (q * g.csize + (r + 1)) * g.ss == (q * g.csize + r) * g.ss + g.ss;
  }

  /** The end of n whole sectors that start at place (q, r). */
  lemma EndOfRun(g: Geometry, p: int, q: int, r: int, n: int)
    requires g.ss > 0 && g.csize > 0 && 0 <= q && 0 <= r && 0 < n && r + n <= g.csize && p == OffsetAt(g, q, r)
    ensures 0 <= p && ClusterIndex(g, p + n * g.ss - 1) == q && (p + n * g.ss) % g.ss == 0
  {
    var a := q * g.csize + r;
    assert p == a * g.ss;
    assert p + n * g.ss == (a + n) * g.ss + 0;
    DivModUnique(p + n * g.ss, a + n, 0, g.ss);
    assert p + n * g.ss - 1 == (a + n - 1) * g.ss + (g.ss - 1);
    DivModUnique(p + n * g.ss - 1, a + n - 1, g.ss - 1, g.ss);
    DivModUnique(a + n - 1, q, r + n - 1, g.csize);
  }

  /** Cluster starts grow with the index, by a cluster's bytes each. */
  lemma ClusterStarts(g: Geometry, a: int, b: int)
    requires g.ss > 0 && g.csize > 0
    ensures OffsetAt(g, a, 0) < OffsetAt(g, b, 0) <==> a < b
    ensures OffsetAt(g, a, 0) == Times(a, ClusterBytes(g))
    ensures ClusterBytes(g) > 0
  {
    var d := g.csize * g.ss;
    assert OffsetAt(g, a, 0) == a * d && OffsetAt(g, b, 0) == b * d;
    assert (b - a) * d == b * d - a * d;
    assert d > 0;
    MulGap(b - a, d);
  }

  /** Byte b of sector a of cluster k. */
  lemma PlaceIs(g: Geometry, k: int, a: int, b: int)
    requires g.ss > 0 && g.csize > 0 && 0 <= k && 0 <= a < g.csize && 0 <= b < g.ss
    ensures var p := OffsetAt(g, k, a) + b;
            p >= 0 && ClusterIndex(g, p) == k && SectorIndex(g, p) == a && p % g.ss == b
  {
    var s := k * g.csize + a;
    DivModUnique(s * g.ss + b, s, b, g.ss);
    DivModUnique(s, k, a, g.csize);
  }

  /** Byte o of cluster k. */
  lemma InCluster(g: Geometry, k: int, o: int)
    requires g.ss > 0 && g.csize > 0 && 0 <= k && 0 <= o < ClusterBytes(g)
    ensures var p := OffsetAt(g, k, 0) + o;
            p >= 0 && ClusterIndex(g, p) == k && 0 <= SectorIndex(g, p) == SectorsIn(g, o) < g.csize
                && p % g.ss == o % g.ss
  {
    hide OffsetAt, ClusterIndex, SectorIndex, SectorsIn, ClusterBytes, Times;
    SectorsSplit(g, o);
    PlaceIs(g, k, SectorsIn(g, o), o % g.ss);
    OffsetRun(g, k, SectorsIn(g, o));
  }

  lemma SectorsSplit(g: Geometry, o: int)
    requires g.ss > 0 && g.csize > 0 && 0 <= o < ClusterBytes(g)
    ensures 0 <= SectorsIn(g, o) < g.csize && o == Times(SectorsIn(g, o), g.ss) + o % g.ss
  {
    DivBound(o, g.csize, g.ss);
  }

  /** The place where a file pointer ofs bytes into cluster k stands. */
  lemma EndsIn(g: Geometry, p: int, k: int, ofs: int)
    requires g.ss > 0 && g.csize > 0 && 0 <= k && 0 < ofs <= ClusterBytes(g) && p == OffsetAt(g, k, 0) + ofs
    ensures p > 0 && ClusterIndex(g, p - 1) == k && p % g.ss == ofs % g.ss
    ensures ofs % g.ss != 0 ==> ClusterIndex(g, p) == k && 0 <= SectorIndex(g, p) == SectorsIn(g, ofs) < g.csize
  {
    hide OffsetAt, ClusterIndex, SectorIndex;
    InCluster(g, k, ofs - 1);
    if ofs < ClusterBytes(g) {
      InCluster(g, k, ofs);
    } else {
      DivModUnique(ofs, g.csize, 0, g.ss);
      OffsetRun(g, k, 0);
      PlaceIs(g, k + 1, 0, 0);
    }
  }

  /** Dividing by the cluster size in bytes gives the cluster index. */
  lemma IndexByBytes(g: Geometry, p: int)
    requires g.ss > 0 && g.csize > 0 && p >= 0
    ensures ClusterBytes(g) > 0 && ClusterNumber(g, p) == ClusterIndex(g, p) >= 0
    ensures 0 <= ClusterBase(g, p) == OffsetAt(g, ClusterIndex(g, p), 0) <= p
  {
    ModSplit(p, g.ss, g.csize);
    ClusterStarts(g, ClusterIndex(g, p), 0);
  }
}
