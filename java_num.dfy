/** Java's integer arithmetic, and the BigInteger operations the decoder uses, over unbounded integers. */
module JavaNum {

  function Pow2(k: nat): (r: int)
    ensures r >= 1
  {
    if k == 0 then 1 else 2 * Pow2(k - 1)
  }

  function Pow10(k: nat): (r: int)
    ensures r >= 1
  {
    if k == 0 then 1 else 10 * Pow10(k - 1)
  }

  lemma {:induction false} Pow2Add(a: nat, b: nat)
    ensures Pow2(a + b) == Pow2(a) * Pow2(b)
  {
    if a > 0 {
      Pow2Add(a - 1, b);
    }
  }

  lemma {:induction false} Pow2Monotone(a: nat, b: nat)
    requires a <= b
    ensures Pow2(a) <= Pow2(b)
  {
    if a < b {
      Pow2Monotone(a, b - 1);
    }
  }

  const IntMin: int := -0x8000_0000
  const IntMax: int := 0x7FFF_FFFF
  const LongMin: int := -0x8000_0000_0000_0000
  const LongMax: int := 0x7FFF_FFFF_FFFF_FFFF

  /** The values of a Java `int`. */
  predicate IsInt(x: int) {
    IntMin <= x <= IntMax
  }

  /** The values of a Java `long`. */
  predicate IsLong(x: int) {
    LongMin <= x <= LongMax
  }

  function Abs(x: int): nat {
    if x < 0 then -x else x
  }

  /**
   * Java's `/` on `int` and `long` (JLS 15.17.2): the quotient is rounded toward zero,
   * so the remainder it leaves takes the sign of the dividend.
   */
  function JavaDiv(a: int, b: int): (q: int)
    requires b != 0
    ensures Abs(a - q * b) < Abs(b)
    ensures a - q * b == 0 || (a - q * b < 0 <==> a < 0)
  {
    if a >= 0 && b > 0 then a / b
    else if a >= 0 then -(a / -b)
    else if b > 0 then -(-a / b)
    else -a / -b
  }

  /** Java's `%` on `int` and `long` (JLS 15.17.3): `a == (a / b) * b + a % b` with Java's `/`. */
  function JavaRem(a: int, b: int): (r: int)
    requires b != 0
    ensures Abs(r) < Abs(b)
    ensures r == 0 || (r < 0 <==> a < 0)
    ensures a >= 0 && b > 0 ==> r == a % b
  {
    a - JavaDiv(a, b) * b
  }

  /** Java's `int` arithmetic and `(int)` casts: two's-complement wrap-around into 32 bits. */
  function Int32(x: int): (r: int)
    ensures IsInt(r)
    ensures (x - r) % 0x1_0000_0000 == 0
    ensures IsInt(x) ==> r == x
  {
    (x + 0x8000_0000) % 0x1_0000_0000 - 0x8000_0000
  }

  /** Java's `long` arithmetic: two's-complement wrap-around into 64 bits. */
  function Int64(x: int): (r: int)
    ensures IsLong(r)
    ensures (x - r) % 0x1_0000_0000_0000_0000 == 0
    ensures IsLong(x) ==> r == x
  {
    (x + 0x8000_0000_0000_0000) % 0x1_0000_0000_0000_0000 - 0x8000_0000_0000_0000
  }

  /** BigInteger.shiftRight(k): floor(v / 2^k); a negative k shifts left by -k. */
  function ShiftRight(v: int, k: int): int {
    if k >= 0 then v / Pow2(k) else v * Pow2(-k)
  }

  /**
   * BigInteger.or on non-negative values, bit by bit from the least significant end
   * (the accumulator of the Base32 decoder is never negative).
   */
  function BitOr(a: nat, b: nat): nat
    decreases a + b
  {
    if a == 0 then b
    else if b == 0 then a
    else 2 * BitOr(a / 2, b / 2) + (if a % 2 == 1 || b % 2 == 1 then 1 else 0)
  }

  /** OR-ing a value below 2^k into a number whose low k bits are zero is addition. */
  lemma {:induction false} BitOrLowBits(x: nat, v: nat, k: nat)
    requires v < Pow2(k)
    ensures BitOr(x * Pow2(k), v) == x * Pow2(k) + v
  {
    if k == 0 || x == 0 || v == 0 {
    } else {
      var a := x * Pow2(k);
      assert Pow2(k) == 2 * Pow2(k - 1);
      assert a == 2 * (x * Pow2(k - 1));
      assert a / 2 == x * Pow2(k - 1) && a % 2 == 0;
      BitOrLowBits(x, v / 2, k - 1);
    }
  }

  /** `&` on non-negative values, bit by bit from the least significant end. */
  function BitAnd(a: nat, b: nat): nat
    decreases a
  {
    if a == 0 || b == 0 then 0
    else 2 * BitAnd(a / 2, b / 2) + (if a % 2 == 1 && b % 2 == 1 then 1 else 0)
  }

  /** AND-ing with the mask of the k low bits keeps the value modulo 2^k. */
  lemma {:induction false} BitAndLowMask(a: nat, k: nat)
    ensures BitAnd(a, Pow2(k) - 1) == a % Pow2(k)
  {
    if k > 0 && a > 0 {
      var p := Pow2(k - 1);
      MaskHalves(k);
      assert BitAnd(a, Pow2(k) - 1) == 2 * BitAnd(a / 2, p - 1) + a % 2;
      BitAndLowMask(a / 2, k - 1);
      ModMul(a, 2, p);
      assert a % Pow2(k) == (a / 2) % p * 2 + a % 2;
    } else if k == 0 {
      assert Pow2(k) == 1;
    } else {
      DivModUnique(0, Pow2(k), 0, 0);
    }
  }

  /** The mask of the k low bits is twice the mask of k - 1 bits, plus one. */
  lemma MaskHalves(k: nat)
    requires k > 0
    ensures Pow2(k) == 2 * Pow2(k - 1)
    ensures (Pow2(k) - 1) / 2 == Pow2(k - 1) - 1 && (Pow2(k) - 1) % 2 == 1
  {
    DivModUnique(Pow2(k) - 1, 2, Pow2(k - 1) - 1, 1);
  }

  /** Quotient and remainder are determined by any decomposition with a remainder in range. */
  lemma DivModUnique(v: int, m: int, q: int, u: int)
    requires m > 0 && v == m * q + u && 0 <= u < m
    ensures v / m == q && v % m == u
  {
    var d := v / m - q;
    assert m * d == u - v % m;
  }

  lemma DivDiv(v: int, a: int, b: int)
    requires a > 0 && b > 0
    ensures v / a / b == v / (a * b)
  {
    var q1, r1 := v / a, v % a;
    var q2, r2 := q1 / b, q1 % b;
    assert v == a * q1 + r1;
    assert q1 == b * q2 + r2;
    assert a * q1 == (a * b) * q2 + a * r2 by {
      MulAssoc(a, b, q2);
      assert a * q1 == a * (b * q2) + a * r2;
    }
    assert a * r2 <= a * b - a by {
      assert a * (b - 1) == a * b - a;
      if r2 < b - 1 {
        MulLess(r2, b - 1, a);
      }
    }
    DivModUnique(v, a * b, q2, a * r2 + r1);
  }

  /** Multiplying by a positive factor keeps a strict order. */
  lemma MulLess(v: int, a: int, p: int)
    requires v < a && p > 0
    ensures v * p < a * p
  {
    assert a * p - v * p == (a - v) * p;
  }

  lemma MulAssoc(x: int, y: int, z: int)
    ensures x * (y * z) == (x * y) * z
  {
  }

  /** Splitting off the lowest digit in base `b` of a remainder modulo `b * p`. */
  lemma ModMul(x: int, b: int, p: int)
    requires b > 0 && p > 0
    ensures x % (b * p) == (x / b) % p * b + x % b
  {
    var q, r := x / b, x % b;
    var t, u := q / p, q % p;
    assert x == b * q + r;
    assert q == p * t + u;
    assert b * q == (b * p) * t + b * u by {
      MulAssoc(b, p, t);
    }
    MulLess(u, p, b);
    assert b * u <= b * p - b by {
      assert b * (p - 1) == b * p - b;
      if u < p - 1 {
        MulLess(u, p - 1, b);
      }
    }
    DivModUnique(x, b * p, t, b * u + r);
  }

  /** Scaling up by two factors and back down by their product is the identity. */
  lemma ScaleBack(v: int, p: int, a: int)
    requires p > 0 && a > 0
    ensures (v * p) * a / (p * a) == v
  {
    MulAssoc(v, p, a);
    DivModUnique((v * p) * a, p * a, v, 0);
  }

  /** `v / m` is at least `c` exactly when `v` is at least `c * m`. */
  lemma DivAtLeast(v: int, m: int, c: int)
    requires m > 0
    ensures v / m >= c <==> v >= c * m
  {
    var q := v / m;
    assert v == m * q + v % m;
    if q >= c {
      assert m * q >= m * c;
    } else {
      assert m * q <= m * (c - 1);
    }
  }

  /** Equal modulo 2^32: the same Java int after wrap-around. */
  predicate Congruent32(x: int, y: int) {
    (x - y) % 0x1_0000_0000 == 0
  }

  lemma MultipleMod(k: int, m: int)
    requires m > 0
    ensures (k * m) % m == 0
  {
    DivModUnique(k * m, m, k, 0);
  }

  lemma ModZero(d: int, m: int)
    requires m > 0 && d % m == 0
    ensures d == (d / m) * m
  {
  }

  lemma Congruent32Symm(x: int, y: int)
    requires Congruent32(x, y)
    ensures Congruent32(y, x)
  {
    var m := 0x1_0000_0000;
    ModZero(x - y, m);
    assert y - x == (-((x - y) / m)) * m;
    MultipleMod(-((x - y) / m), m);
  }

  /** The int cast is invisible modulo 2^32. */
  lemma Int32Congruent(x: int)
    ensures Congruent32(Int32(x), x)
  {
    Congruent32Symm(x, Int32(x));
  }

  lemma Congruent32Trans(x: int, y: int, z: int)
    requires Congruent32(x, y) && Congruent32(y, z)
    ensures Congruent32(x, z)
  {
    var m := 0x1_0000_0000;
    ModZero(x - y, m);
    ModZero(y - z, m);
    assert x - z == ((x - y) / m + (y - z) / m) * m;
    MultipleMod((x - y) / m + (y - z) / m, m);
  }

  lemma Congruent32Scale(x: int, y: int, c: int)
    requires Congruent32(x, y)
    ensures Congruent32(x * c, y * c)
  {
    var m := 0x1_0000_0000;
    ModZero(x - y, m);
    var k := (x - y) / m;
    assert x * c - y * c == (x - y) * c;
    assert (x - y) * c == (k * c) * m;
    MultipleMod(k * c, m);
  }

  lemma Congruent32Add(x: int, y: int, c: int)
    requires Congruent32(x, y)
    ensures Congruent32(x + c, y + c)
  {
    assert (x + c) - (y + c) == x - y;
  }

  /** A 64-bit wrap-around is also invisible modulo 2^32. */
  lemma Int64Congruent32(x: int)
    ensures Congruent32(Int64(x), x)
  {
    var m := 0x1_0000_0000;
    var d := Int64(x) - x;
    ModZero(-d, m * m);
    assert d == (-((-d) / (m * m)) * m) * m;
    MultipleMod(-((-d) / (m * m)) * m, m);
  }

  /** Whatever wrapped on the way, the int cast of a value congruent to an int is that int. */
  lemma Int32OfCongruent(x: int, y: int)
    requires Congruent32(x, y) && IsInt(y)
    ensures Int32(x) == y
  {
    var m := 0x1_0000_0000;
    ModZero(x - y, m);
    DivModUnique(x + 0x8000_0000, m, (x - y) / m, y + 0x8000_0000);
  }
}
