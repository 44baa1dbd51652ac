// The 32-bit arithmetic of the finsh stack machine (finsh/finsh_ops.c): the operations on
// bit patterns, and the laws of C's long that they obey.
module FinshArith {
  import opened Wrappers
  import opened Words

  datatype Operator = Add | Sub | Div | Mod | Mul | And | Or | Xor | Shl | Shr

  // ----- The operations, on longs kept as their 32-bit patterns -----

  function Signed(a: dword): int {
    if a < 0x8000_0000 then a else a - 0x1_0000_0000
  }

  function Pattern(x: int): dword {
    x % 0x1_0000_0000
  }

  function Magnitude(x: int): nat {
    if x < 0 then -x else x
  }

  /** C's quotient, rounded toward zero. */
  function Quotient(x: int, y: int): int
    requires y != 0
  {
    var q := Magnitude(x) / Magnitude(y);
    if (x < 0) == (y < 0) then q else -q
  }

  function Pow2(n: nat): (p: nat)
    ensures p > 0
  {
    if n == 0 then 1 else 2 * Pow2(n - 1)
  }

  /** The low n bits of a and b, put together bit by bit. */
  function Bitwise(f: (bool, bool) -> bool, a: nat, b: nat, n: nat): nat {
    if n == 0 then 0 else
    (if f(a % 2 == 1, b % 2 == 1) then 1 else 0) + 2 * Bitwise(f, a / 2, b / 2, n - 1)
  }

  lemma {:induction false} BitwiseBound(f: (bool, bool) -> bool, a: nat, b: nat, n: nat)
    ensures Bitwise(f, a, b, n) < Pow2(n)
  {
    if n > 0 {
      BitwiseBound(f, a / 2, b / 2, n - 1);
    }
  }

  lemma Pow2Of32()
    ensures Pow2(32) == 0x1_0000_0000
  {
    assert Pow2(8) == 0x100;
    assert Pow2(16) == 0x1_0000;
    assert Pow2(24) == 0x100_0000;
  }

  function Bitwise32(f: (bool, bool) -> bool, a: dword, b: dword): dword {
    BitwiseBound(f, a, b, 32);
    Pow2Of32();
    Bitwise(f, a, b, 32)
  }

  /** The value of a binary operation, if C gives it one. */
  function Apply(op: Operator, a: dword, b: dword): Option<dword> {
    match op
    case Add => Some(Pattern(a + b))
    case Sub => Some(Pattern(a - b))
    case Mul => Some(Pattern(a * b))
    case Div =>
      if b == 0 || (a == 0x8000_0000 && b == 0xFFFF_FFFF) then None
      else Some(Pattern(Quotient(Signed(a), Signed(b))))
    case Mod =>
      if b == 0 || (a == 0x8000_0000 && b == 0xFFFF_FFFF) then None
      else Some(Pattern(Signed(a) - Quotient(Signed(a), Signed(b)) * Signed(b)))
    case And => Some(Bitwise32((x, y) => x && y, a, b))
    case Or => Some(Bitwise32((x, y) => x || y, a, b))
    case Xor => Some(Bitwise32((x, y) => x != y, a, b))
    case Shl => if b >= 32 then None else Some(Pattern(a * Pow2(b)))
    case Shr => if b >= 32 then None else Some(Pattern(Signed(a) / Pow2(b)))
  }

  function Complement(a: dword): dword {
    0xFFFF_FFFF - a
  }

  // ----- The laws -----

  predicate IsLong(x: int) {
    -0x8000_0000 <= x < 0x8000_0000
  }

  /** x and y differ by a multiple of 2^32. */
  predicate Congruent(x: int, y: int) {
    (x - y) % 0x1_0000_0000 == 0
  }

  /** The long behind a pattern: in range, and the pattern up to a multiple of 2^32. */
  lemma SignedIs(a: dword)
    ensures IsLong(Signed(a)) && Congruent(Signed(a), a)
  {
  }

  /** A long is known from its congruence class. */
  lemma LongUnique(x: int, y: int)
    requires IsLong(x) && IsLong(y) && Congruent(x, y)
    ensures x == y
  {
  }

  lemma CongruentBy(x: int, y: int, k: int)
    requires x == y + 0x1_0000_0000 * k
    ensures Congruent(x, y)
  {
  }

  /** What a pattern stands for: the number itself if that is a long, and otherwise the long congruent to it. */
  lemma SignedPattern(x: int)
    ensures Congruent(Signed(Pattern(x)), x)
    ensures IsLong(x) ==> Signed(Pattern(x)) == x
  {
    var k := x / 0x1_0000_0000;
    var p := Pattern(x);
    assert x == k * 0x1_0000_0000 + p;
    CongruentBy(Signed(p), x, if p < 0x8000_0000 then -k else -k - 1);
    SignedIs(p);
    if IsLong(x) {
      LongUnique(Signed(p), x);
    }
  }

  lemma PatternCongruent(x: int, y: int)
    requires Congruent(x, y)
    ensures Pattern(x) == Pattern(y)
  {
    var k := (x - y) / 0x1_0000_0000;
    assert x == y + k * 0x1_0000_0000;
  }

  /** x as the value of an operation on longs: itself in range, congruent to it outside. */
  ghost predicate LongResult(r: Option<dword>, x: int) {
    r.Some? && Congruent(Signed(r.value), x) && (IsLong(x) ==> Signed(r.value) == x)
  }

  lemma ResultOf(x: int, y: int)
    requires Congruent(x, y)
    ensures LongResult(Some(Pattern(x)), y)
  {
    PatternCongruent(x, y);
    SignedPattern(y);
  }

  /** Addition, subtraction and multiplication are those of the longs. */
  lemma RingLaws(a: dword, b: dword)
    ensures LongResult(Apply(Add, a, b), Signed(a) + Signed(b))
    ensures LongResult(Apply(Sub, a, b), Signed(a) - Signed(b))
    ensures LongResult(Apply(Mul, a, b), Signed(a) * Signed(b))
  {
    var i, j := if a < 0x8000_0000 then 0 else 1, if b < 0x8000_0000 then 0 else 1;
    var x, y := Signed(a), Signed(b);
    assert a == x + 0x1_0000_0000 * i && b == y + 0x1_0000_0000 * j;
    CongruentBy(a + b, x + y, i + j);
    CongruentBy(a - b, x - y, i - j);
    ProductSplits(x, y, i, j);
    CongruentBy(a * b, x * y, x * j + y * i + 0x1_0000_0000 * i * j);
    ResultOf(a + b, x + y);
    ResultOf(a - b, x - y);
    ResultOf(a * b, x * y);
  }

  lemma ProductSplits(x: int, y: int, i: int, j: int)
    ensures (x + 0x1_0000_0000 * i) * (y + 0x1_0000_0000 * j) ==
            x * y + 0x1_0000_0000 * (x * j + y * i + 0x1_0000_0000 * i * j)
  {
  }

  /** Division rounds toward zero, the remainder has the dividend's sign, and both are undefined in two cases only. */
  lemma DivisionLaws(a: dword, b: dword)
    ensures Apply(Div, a, b).None? <==> Signed(b) == 0 || (Signed(a) == -0x8000_0000 && Signed(b) == -1)
    ensures Apply(Mod, a, b).None? <==> Apply(Div, a, b).None?
    ensures Apply(Div, a, b).Some? ==>
              var q, r, d := Signed(Apply(Div, a, b).value), Signed(Apply(Mod, a, b).value), Signed(b);
              Signed(a) == q * d + r && (if r < 0 then -r else r) < (if d < 0 then -d else d) &&
              (r == 0 || (r < 0 <==> Signed(a) < 0))
  {
    hide Signed, Pattern, Quotient;
    SignedIs(a);
    SignedIs(b);
    SignedZero(a, b);
    if Signed(b) != 0 && !(Signed(a) == -0x8000_0000 && Signed(b) == -1) {
      var x, y := Signed(a), Signed(b);
      QuotientLaw(x, y);
      SignedPattern(Quotient(x, y));
      SignedPattern(x - Quotient(x, y) * y);
    }
  }

  lemma SignedZero(a: dword, b: dword)
    ensures Signed(b) == 0 <==> b == 0
    ensures Signed(a) == -0x8000_0000 <==> a == 0x8000_0000
    ensures Signed(b) == -1 <==> b == 0xFFFF_FFFF
  {
  }

  lemma QuotientLaw(x: int, y: int)
    requires IsLong(x) && IsLong(y) && y != 0 && Magnitude(y) != 0 && !(x == -0x8000_0000 && y == -1)
    ensures IsLong(Quotient(x, y)) && IsLong(x - Quotient(x, y) * y)
    ensures var r := x - Quotient(x, y) * y;
            Magnitude(r) < Magnitude(y) && (r == 0 || (r < 0 <==> x < 0)) && x == Quotient(x, y) * y + r
  {
    hide IsLong, Magnitude, IsQuotient;
    QuotientSize(Magnitude(x), Magnitude(y));
    SignedQuotient(x, y, Magnitude(x) / Magnitude(y), Quotient(x, y));
  }

  ghost predicate IsQuotient(m: nat, d: nat, q: int) {
    q * d <= m < q * d + d && 0 <= q <= m && (d > 1 ==> 2 * q <= m)
  }

  lemma QuotientSize(m: nat, d: nat)
    requires d > 0
    ensures IsQuotient(m, d, m / d)
  {
    var q := m / d;
    DivMod(m, d);
    MulLe(1, d, q);
    if d > 1 {
      MulLe(2, d, q);
    }
  }

  lemma SignedQuotient(x: int, y: int, q: int, s: int)
    requires IsLong(x) && IsLong(y) && y != 0 && !(x == -0x8000_0000 && y == -1)
    requires IsQuotient(Magnitude(x), Magnitude(y), q) && s == if (x < 0) == (y < 0) then q else -q
    ensures IsLong(s) && IsLong(x - s * y)
    ensures var r := x - s * y;
            Magnitude(r) < Magnitude(y) && (r == 0 || (r < 0 <==> x < 0)) && x == s * y + r
  {
    hide IsLong;
    SignedProduct(y, q);
    SignedParts(x, y, q, q * Magnitude(y), s, s * y);
  }

  lemma SignedProduct(y: int, q: int)
    ensures q * Magnitude(y) == if y < 0 then -q * y else q * y
    ensures -q * y == -(q * y)
  {
  }

  /** Quotient s and product t = s * y of x and y, from the quotient q and the product p of their magnitudes. */
  lemma SignedParts(x: int, y: int, q: int, p: int, s: int, t: int)
    requires IsLong(x) && IsLong(y) && y != 0 && !(x == -0x8000_0000 && y == -1)
    requires 0 <= p <= Magnitude(x) < p + Magnitude(y)
    requires 0 <= q <= Magnitude(x) && (Magnitude(y) > 1 ==> 2 * q <= Magnitude(x))
    requires s == if (x < 0) == (y < 0) then q else -q
    requires t == if x < 0 then -p else p
    ensures IsLong(s) && IsLong(x - t)
    ensures Magnitude(x - t) < Magnitude(y) && (x == t || (x - t < 0 <==> x < 0))
  {
  }

  /** Bit k of a number. */
  predicate Bit(a: nat, k: nat) {
    a / Pow2(k) % 2 == 1
  }

  lemma HalfBit(a: nat, k: nat)
    ensures Bit(a, k + 1) == Bit(a / 2, k)
    ensures Bit(a, 0) == (a % 2 == 1)
  {
    ModSplit(a, 2, Pow2(k));
  }

  /** Two numbers below 2^n with the same n bits are the same. */
  lemma {:induction false} SameBits(a: nat, b: nat, n: nat)
    requires a < Pow2(n) && b < Pow2(n)
    requires forall k: nat | k < n :: Bit(a, k) == Bit(b, k)
    ensures a == b
  {
    if n > 0 {
      forall k: nat | k < n - 1 ensures Bit(a / 2, k) == Bit(b / 2, k) {
        HalfBit(a, k);
        HalfBit(b, k);
        assert Bit(a, k + 1) == Bit(b, k + 1);
      }
      SameBits(a / 2, b / 2, n - 1);
      HalfBit(a, 0);
      HalfBit(b, 0);
      assert Bit(a, 0) == Bit(b, 0);
    }
  }

  lemma {:induction false} BitwiseBit(f: (bool, bool) -> bool, a: nat, b: nat, n: nat, k: nat)
    requires k < n
    ensures Bit(Bitwise(f, a, b, n), k) == f(Bit(a, k), Bit(b, k))
  {
    hide Bit;
    var r := Bitwise(f, a, b, n);
    var rest := Bitwise(f, a / 2, b / 2, n - 1);
    assert r / 2 == rest && r % 2 == if f(a % 2 == 1, b % 2 == 1) then 1 else 0;
    if k == 0 {
      HalfBit(a, 0);
      HalfBit(b, 0);
      HalfBit(r, 0);
    } else {
      BitwiseBit(f, a / 2, b / 2, n - 1, k - 1);
      HalfBit(a, k - 1);
      HalfBit(b, k - 1);
      HalfBit(r, k - 1);
    }
  }

  /** Every bit of a bitwise operation comes from the same bit of its operands. */
  lemma BitLaws(a: dword, b: dword, k: nat)
    requires k < 32
    ensures Apply(And, a, b).Some? && Apply(Or, a, b).Some? && Apply(Xor, a, b).Some?
    ensures Bit(Apply(And, a, b).value, k) == (Bit(a, k) && Bit(b, k))
    ensures Bit(Apply(Or, a, b).value, k) == (Bit(a, k) || Bit(b, k))
    ensures Bit(Apply(Xor, a, b).value, k) == (Bit(a, k) != Bit(b, k))
    ensures Bit(Complement(a), k) == !Bit(a, k)
  {
    hide Bit, Bitwise;
    BitwiseBit((x, y) => x && y, a, b, 32, k);
    BitwiseBit((x, y) => x || y, a, b, 32, k);
    BitwiseBit((x, y) => x != y, a, b, 32, k);
    Pow2Of32();
    ComplementBit(a, 32, k);
  }

  lemma {:induction false} ComplementBit(a: nat, n: nat, k: nat)
    requires k < n && a < Pow2(n)
    ensures Bit(Pow2(n) - 1 - a, k) == !Bit(a, k)
  {
    hide Bit;
    var c := Pow2(n) - 1 - a;
    assert c / 2 == Pow2(n - 1) - 1 - a / 2 && c % 2 == 1 - a % 2;
    if k == 0 {
      HalfBit(a, 0);
      HalfBit(c, 0);
    } else {
      ComplementBit(a / 2, n - 1, k - 1);
      HalfBit(a, k - 1);
      HalfBit(c, k - 1);
    }
  }

  /** A shift by one more place doubles, or halves rounding down; a shift by 32 or more has no value. */
  lemma ShiftLaws(a: dword, b: dword)
    ensures Apply(Shl, a, b).None? <==> b >= 32
    ensures Apply(Shr, a, b).None? <==> b >= 32
    ensures Apply(Shl, a, 0) == Some(a) && Apply(Shr, a, 0) == Some(a)
    ensures b < 31 ==> LongResult(Apply(Shl, a, b + 1), 2 * Signed(Apply(Shl, a, b).value))
    ensures b < 31 ==> var x, y := Signed(Apply(Shr, a, b).value), Signed(Apply(Shr, a, b + 1).value);
                       2 * y <= x < 2 * y + 2
  {
    hide Signed, Pattern, Congruent;
    PatternSelf(a);
    if b < 31 {
      var p := Pow2(b);
      assert Pow2(b + 1) == 2 * p;
      DoubleShift(a, p);
      HalfShift(a, p);
    }
  }

  lemma PatternSelf(a: dword)
    ensures Pattern(a * Pow2(0)) == a && Pattern(Signed(a) / Pow2(0)) == a
  {
  }

  lemma DoubleShift(a: dword, p: nat)
    ensures LongResult(Some(Pattern(a * (2 * p))), 2 * Signed(Pattern(a * p)))
  {
    var x := a * p;
    SignedPattern(x);
    var k := (Signed(Pattern(x)) - x) / 0x1_0000_0000;
    CongruentBy(2 * x, 2 * Signed(Pattern(x)), -2 * k);
    assert a * (2 * p) == 2 * x;
    ResultOf(2 * x, 2 * Signed(Pattern(x)));
  }

  lemma HalfShift(a: dword, p: nat)
    requires p > 0
    ensures var x, y := Signed(Pattern(Signed(a) / p)), Signed(Pattern(Signed(a) / (2 * p)));
            2 * y <= x < 2 * y + 2
  {
    hide Signed, Pattern;
    var s := Signed(a);
    SignedIs(a);
    QuotientIsLong(s, p);
    QuotientIsLong(s, 2 * p);
    SignedPattern(s / p);
    SignedPattern(s / (2 * p));
    HalfQuotient(s, p);
  }

  lemma QuotientIsLong(s: int, p: nat)
    requires IsLong(s) && p > 0
    ensures IsLong(s / p)
  {
    var q := s / p;
    assert q * p <= s < q * p + p;
    if q >= 0 {
      MulLe(1, p, q);
    } else {
      MulLe(1, p, -q - 1);
      assert -q * p == (-q - 1) * p + p;
    }
  }

  lemma HalfQuotient(s: int, p: nat)
    requires p > 0
    ensures 2 * (s / (2 * p)) <= s / p < 2 * (s / (2 * p)) + 2
  {
    var q, h := s / p, s / (2 * p);
    assert q * p <= s < q * p + p;
    assert h * (2 * p) <= s < h * (2 * p) + 2 * p;
    assert h * (2 * p) == (2 * h) * p;
    if q < 2 * h {
      MulGap(2 * h - q, p);
    }
    if q >= 2 * h + 2 {
      MulGap(q - 2 * h - 1, p);
    }
  }

  /** Small numbers, worked out. */
  lemma SmallAnswers()
    ensures Apply(Sub, 5, 3) == Some(2) && Apply(Sub, 3, 5) == Some(0xFFFF_FFFE) && Apply(Sub, 6, 1) == Some(5)
    ensures Apply(Div, Pattern(-7), 2) == Some(Pattern(-3)) && Apply(Mod, Pattern(-7), 2) == Some(Pattern(-1))
    ensures Apply(Shl, 3, 4) == Some(48) && Apply(Shr, Pattern(-3), 1) == Some(Pattern(-2))
  {
    assert Pow2(4) == 16;
  }
}
