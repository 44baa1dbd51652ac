// Bytes, little-endian words and the division facts shared by the other modules.
module Words {

  type byte = b: int | 0 <= b < 0x100

  const DWORD_SPAN: nat := 0x1_0000_0000

  type dword = d: int | 0 <= d < 0x1_0000_0000

  /** The number in two bytes, low byte first. */
  function Pair(lo: int, hi: int): int {
    lo + 0x100 * hi
  }

  /** The number in four bytes, low byte first. */
  function Quad(b0: int, b1: int, b2: int, b3: int): int {
    b0 + 0x100 * b1 + 0x1_0000 * b2 + 0x100_0000 * b3
  }

  /** LD_WORD: the 16-bit little-endian value at offset i. */
  function LdWord(s: seq<byte>, i: nat): (v: nat)
    requires i + 2 <= |s|
    ensures v < 0x10000
  {
    Pair(s[i], s[i + 1])
  }

  /** LD_DWORD: the 32-bit little-endian value at offset i. */
  function LdDword(s: seq<byte>, i: nat): (v: nat)
    requires i + 4 <= |s|
    ensures v < DWORD_SPAN
  {
    Quad(s[i], s[i + 1], s[i + 2], s[i + 3])
  }

  /** Subtraction on 32-bit unsigned values, with wrap-around. */
  function Sub32(a: dword, b: dword): (r: dword)
    ensures (r + b) % 0x1_0000_0000 == a
  {
    (a - b) % 0x1_0000_0000
  }

  function Inc32(a: dword): (r: dword)
    ensures r == a + 1 || (r == 0 && a == 0xFFFF_FFFF)
  {
    (a + 1) % 0x1_0000_0000
  }

  lemma Sub32Wraps(a: dword, b: dword)
    ensures Sub32(a, b) == if a >= b then a - b else a - b + 0x1_0000_0000
  {
  }

  lemma MulLe(a: nat, b: nat, d: nat)
    requires a <= b
    ensures a * d <= b * d
  {
  }

  lemma MulGap(e: int, d: int)
    requires d > 0
    ensures e >= 1 ==> e * d >= d
    ensures e <= -1 ==> e * d <= -d
  {
    if e >= 1 {
      assert e * d == (e - 1) * d + d && (e - 1) * d >= 0;
    }
    if e <= -1 {
      assert e * d == (e + 1) * d - d && (e + 1) * d <= 0;
    }
  }

  /** Numbers written with one digit below d have only one such writing. */
  lemma DigitUnique(a: int, r: int, b: int, s: int, d: int)
    requires 0 <= r < d && 0 <= s < d && a * d + r == b * d + s
    ensures a == b && r == s
  {
    assert (a - b) * d == s - r;
    MulGap(a - b, d);
  }

  /** Quotient and remainder are unique. */
  lemma DivModUnique(x: nat, q: nat, r: nat, d: nat)
    requires r < d
    requires x == q * d + r
    ensures x / d == q && x % d == r
  {
    var y := x / d;
    assert x == y * d + x % d;
    assert (q - y) * d == q * d - y * d;
    MulGap(q - y, d);
  }

  /** i < n * d exactly when its quotient is below n. */
  lemma DivBound(i: nat, n: nat, d: nat)
    requires d > 0
    ensures i / d < n <==> i < n * d
  {
    assert i == (i / d) * d + i % d;
    if i / d < n {
      MulLe(i / d + 1, n, d);
    } else {
      MulLe(n, i / d, d);
    }
  }

  /** A multiple of c blocks of d. */
  lemma NestedBoundary(p: nat, d: nat, c: nat)
    requires d > 0 && c > 0 && p % d == 0 && p / d % c == 0
    ensures p == p / d / c * c * d
    ensures p > 0 ==> p / d / c > 0 && (p - 1) / d / c == p / d / c - 1
  {
    var s := p / d;
    var q := s / c;
    assert p == s * d && s == q * c;
    if p > 0 {
      assert s > 0 && q > 0;
      assert p - 1 == (s - 1) * d + (d - 1);
      DivModUnique(p - 1, s - 1, d - 1, d);
      assert s - 1 == (q - 1) * c + (c - 1);
      DivModUnique(s - 1, q - 1, c - 1, c);
    }
  }

  /** n steps from p that do not leave p's block of d. */
  lemma StayInBlock(p: int, n: int, d: int)
    requires d > 0 && p >= 0 && 0 < n && p % d + n <= d
    ensures (p + n - 1) / d == p / d
    ensures (p + n) % d == (if p % d + n == d then 0 else p % d + n)
    ensures (p + n) / d == (if p % d + n == d then p / d + 1 else p / d)
  {
    var s, o := p / d, p % d;
    assert p == s * d + o;
    DivModUnique(p + n - 1, s, o + n - 1, d);
    if o + n < d {
      DivModUnique(p + n, s, o + n, d);
    } else {
      assert p + n == (s + 1) * d + 0;
      DivModUnique(p + n, s + 1, 0, d);
    }
  }

  /** A record of w bytes at index c never straddles a block of m records. */
  lemma RecordInBlock(c: nat, w: nat, m: nat, k: nat)
    requires 0 < w && 0 < m && k < w
    ensures c * w / (w * m) == c / m
    ensures c * w % (w * m) + w <= w * m
    ensures (c * w + k) / (w * m) == c / m && (c * w + k) % (w * m) == c * w % (w * m) + k
  {
    var q, r := c / m, c % m;
    assert c * w + k == q * (w * m) + (r * w + k);
    assert c * w == q * (w * m) + r * w;
    assert r * w + w <= m * w by { MulLe(r + 1, m, w); }
    DivModUnique(c * w + k, q, r * w + k, w * m);
    DivModUnique(c * w, q, r * w, w * m);
  }

  /** Byte k of a value: the value shifted right by 8 * k bits, cut to 8 bits. */
  function Byte(v: nat, k: nat): byte {
    if k == 0 then v % 0x100 else Byte(v / 0x100, k - 1)
  }

  lemma DivMod(v: nat, d: nat)
    requires d > 0
    ensures v == v / d * d + v % d && 0 <= v % d < d && 0 <= v / d
  {
  }

  lemma TwoDigits(p: nat, r: nat, s: nat, a: nat, m: nat)
    requires r < m && s < a
    ensures (p * m + r) * a + s == p * (a * m) + (s + a * r)
    ensures s + a * r < a * m
  {
    assert (p * m) * a == p * (a * m);
    MulLe(r + 1, m, a);
  }

  /** The last digit of v in base a and the last digit of the rest in base m make the last digit in base a * m. */
  lemma ModSplit(v: nat, a: nat, m: nat)
    requires 0 < a && 0 < m
    ensures v % (a * m) == v % a + a * (v / a % m)
    ensures v / (a * m) == v / a / m
  {
    var q, s := v / a, v % a;
    DivMod(v, a);
    var p, r := q / m, q % m;
    DivMod(q, m);
    TwoDigits(p, r, s, a, m);
    DivModUnique(v, p, s + a * r, a * m);
  }

  /** A number below 2^16 or 2^28 rebuilt from its digits. */
  lemma Digits16(v: nat)
    ensures v % 0x1_0000 == Pair(Byte(v, 0), Byte(v, 1))
  {
    ModSplit(v, 0x100, 0x100);
  }

  lemma ModMod(v: nat)
    ensures v % 0x100 % 16 == v % 16
  {
    ModSplit(v, 16, 16);
    DivModUnique(v % 0x100, v / 16 % 16, v % 16, 16);
  }

  lemma Digits28(v: nat)
    ensures v % 0x1000_0000 == Quad(Byte(v, 0), Byte(v, 1), Byte(v, 2), Byte(v, 3) % 16)
  {
    var p, q, r := v / 0x100, v / 0x100 / 0x100, v / 0x100 / 0x100 / 0x100;
    var b0, b1, b2, b3 := v % 0x100, p % 0x100, q % 0x100, r % 16;
    assert Byte(v, 1) == b1 && Byte(v, 2) == Byte(p, 1) == b2;
    assert Byte(v, 3) == Byte(p, 2) == Byte(q, 1) == r % 0x100;
    ModMod(r);
    assert v == r / 16 * 0x1000_0000 + Quad(b0, b1, b2, b3);
    DivModUnique(v, r / 16, Quad(b0, b1, b2, b3), 0x1000_0000);
  }

  lemma QuadLow28(b0: byte, b1: byte, b2: byte, b3: byte)
    ensures Quad(b0, b1, b2, b3) % 0x1000_0000 == Quad(b0, b1, b2, b3 % 16)
  {
  }

  /** The upper 12 and the lower 12 bits of two bytes. */
  lemma Pair12(b0: byte, b1: byte)
    ensures Pair(b0, b1) / 16 == b0 / 16 + 16 * (b1 as int)
    ensures Pair(b0, b1) % 0x1000 == b0 + 0x100 * (b1 % 16)
  {
  }

  /** What ST_WORD and ST_DWORD store: the low bytes of v, low byte first. */
  function WordBytes(v: nat): (bs: seq<byte>)
    ensures |bs| == 2
  {
    [Byte(v, 0), Byte(v, 1)]
  }

  function DwordBytes(v: nat): (bs: seq<byte>)
    ensures |bs| == 4
  {
    [Byte(v, 0), Byte(v, 1), Byte(v, 2), Byte(v, 3)]
  }

  lemma WordRead(v: nat)
    requires v < 0x1_0000
    ensures Pair(Byte(v, 0), Byte(v, 1)) == v
  {
    Digits16(v);
  }

  lemma DwordRead(v: nat)
    requires v < 0x1_0000_0000
    ensures Quad(Byte(v, 0), Byte(v, 1), Byte(v, 2), Byte(v, 3)) == v
  {
    var p, q, r := v / 0x100, v / 0x100 / 0x100, v / 0x100 / 0x100 / 0x100;
    assert Byte(v, 1) == p % 0x100;
    assert Byte(v, 2) == Byte(p, 1) == q % 0x100;
    assert Byte(v, 3) == Byte(p, 2) == Byte(q, 1) == r % 0x100;
    ThreeDigits(v, p, q, r);
  }

  /** The bytes of a number put together from bytes. */
  lemma ByteDigits(b0: byte, b1: byte, b2: byte, b3: byte)
    ensures DwordBytes(b0 + 0x100 * b1 + 0x1_0000 * b2 + 0x100_0000 * b3) == [b0, b1, b2, b3]
  {
    hide Byte;
    var x2: nat := 0x100 * b3 + b2;
    var x1: nat := 0x100 * x2 + b1;
    ByteFirst(b3, 0);
    ByteFirst(b2, b3);
    ByteFirst(b1, x2);
    ByteFirst(b0, x1);
    assert 0x100 * x1 + b0 == b0 + 0x100 * b1 + 0x1_0000 * b2 + 0x100_0000 * b3;
  }

  lemma ByteFirst(b: byte, v: nat)
    ensures Byte(0x100 * v + b, 0) == b
    ensures Byte(0x100 * v + b, 1) == Byte(v, 0) && Byte(0x100 * v + b, 2) == Byte(v, 1)
    ensures Byte(0x100 * v + b, 3) == Byte(v, 2)
  {
    DivModUnique(0x100 * v + b, v, b, 0x100);
  }

  lemma ThreeDigits(v: nat, p: nat, q: nat, r: nat)
    requires v < 0x1_0000_0000 && p == v / 0x100 && q == p / 0x100 && r == q / 0x100
    ensures v == Quad(v % 0x100, p % 0x100, q % 0x100, r) && r % 0x100 == r
  {
  }

  lemma Cut(s: seq<byte>, a: nat, b: nat, c: nat)
    requires a <= b <= c <= |s|
    ensures s[a..c] == s[a..b] + s[b..c]
  {
  }

  /** The bytes of consecutive blocks. */
  function Flat(blocks: seq<seq<byte>>): seq<byte> {
    if |blocks| == 0 then [] else Flat(blocks[..|blocks| - 1]) + blocks[|blocks| - 1]
  }

  lemma FlatNone()
    ensures forall blocks: seq<seq<byte>> | |blocks| == 0 :: Flat(blocks) == []
  {
  }

  lemma FlatMore(blocks: seq<seq<byte>>)
    requires |blocks| > 0
    ensures Flat(blocks) == Flat(blocks[..|blocks| - 1]) + blocks[|blocks| - 1]
  {
  }

  lemma FlatOne(blocks: seq<seq<byte>>)
    requires |blocks| == 1
    ensures Flat(blocks) == blocks[0]
  {
    assert Flat(blocks[..0]) == [];
  }

  lemma {:induction false} FlatLength(blocks: seq<seq<byte>>, n: nat)
    requires forall k | 0 <= k < |blocks| :: |blocks[k]| == n
    ensures |Flat(blocks)| == |blocks| * n
  {
    if |blocks| > 0 {
      FlatLength(blocks[..|blocks| - 1], n);
      assert |blocks| * n == (|blocks| - 1) * n + n;
    }
  }

  /** Block k of the flattened bytes. */
  lemma {:induction false} FlatBlock(blocks: seq<seq<byte>>, n: nat, k: nat)
    requires forall j | 0 <= j < |blocks| :: |blocks[j]| == n
    requires k < |blocks|
    ensures 0 <= k * n <= k * n + n <= |Flat(blocks)|
    ensures Flat(blocks)[k * n..k * n + n] == blocks[k]
  {
    var front := blocks[..|blocks| - 1];
    FlatLength(blocks, n);
    FlatLength(front, n);
    if k < |front| {
      FlatBlock(front, n, k);
      assert Flat(blocks)[k * n..k * n + n] == Flat(front)[k * n..k * n + n];
    }
  }

  /** data, n blocks of d bytes, with block k replaced by b. */
  function WithBlock(data: seq<byte>, n: nat, d: nat, k: nat, b: seq<byte>): (r: seq<byte>)
    requires |data| == n * d && k < n && |b| == d
    ensures |r| == |data|
  {
    BlockBounds(n, d, k);
    data[..k * d] + b + data[k * d + d..]
  }

  /** Replacing one block replaces its bytes. */
  lemma {:induction false} FlatReplace(blocks: seq<seq<byte>>, k: nat, b: seq<byte>, n: nat)
    requires forall j | 0 <= j < |blocks| :: |blocks[j]| == n
    requires k < |blocks| && |b| == n
    ensures |Flat(blocks)| == |blocks| * n
    ensures Flat(blocks[k := b]) == WithBlock(Flat(blocks), |blocks|, n, k, b)
  {
    var m := |blocks| - 1;
    var front := blocks[..m];
    FlatLength(blocks, n);
    FlatBlock(blocks, n, k);
    FlatLength(front, n);
    FlatMore(blocks[k := b]);
    if k < m {
      FlatReplace(front, k, b, n);
      assert blocks[k := b][..m] == front[k := b];
    } else {
      assert blocks[k := b][..m] == front;
    }
  }

  /** n blocks of d bytes cut from data. */
  function Blocks(data: seq<byte>, n: nat, d: nat): (bs: seq<seq<byte>>)
    requires |data| == n * d
    ensures |bs| == n
    ensures forall k | 0 <= k < n :: |bs[k]| == d
  {
    seq(n, k requires 0 <= k < n => Block(data, n, d, k))
  }

  function Block(data: seq<byte>, n: nat, d: nat, k: nat): (b: seq<byte>)
    requires |data| == n * d && k < n
    ensures |b| == d
  {
    BlockBounds(n, d, k);
    data[k * d..k * d + d]
  }

  lemma BlocksAt(data: seq<byte>, n: nat, d: nat, k: nat)
    requires |data| == n * d && k < n
    ensures Blocks(data, n, d)[k] == Block(data, n, d, k)
  {
  }

  lemma OneBlock(blocks: seq<seq<byte>>, s: nat, b: seq<byte>, d: nat)
    requires s < |blocks| && |b| == 1 * d
    ensures blocks[..s] + Blocks(b, 1, d) + blocks[s + 1..] == blocks[s := b]
  {
    assert Block(b, 1, d, 0) == b;
  }

  lemma BlockBounds(n: nat, d: nat, k: nat)
    requires k < n
    ensures 0 <= k * d && k * d + d <= n * d
  {
    assert (k + 1) * d == k * d + d;
    MulLe(k + 1, n, d);
  }
}
