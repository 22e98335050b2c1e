/**
 * Java's fixed-width integers and the bitwise operators the numeric helpers use,
 * stated on mathematical integers.
 *
 * A `long` is an integer in [-2^63, 2^63) and an `int` one in [-2^31, 2^31).
 * Bitwise operators act on the two's complement bit pattern, which is the
 * natural number `Unsigned(n)` in [0, 2^64); `Xor` and `And` are defined one bit
 * at a time, least significant bit first, so that their properties follow by
 * induction on the bit width.
 */
module JavaPrimitives {

  type Long = x: int | -0x8000_0000_0000_0000 <= x <= 0x7FFF_FFFF_FFFF_FFFF
  type Int = x: int | -0x8000_0000 <= x <= 0x7FFF_FFFF

  const MinLong: Long := -0x8000_0000_0000_0000
  const MaxLong: Long := 0x7FFF_FFFF_FFFF_FFFF

  const TwoTo31: int := 0x8000_0000
  const TwoTo32: int := 0x1_0000_0000
  const TwoTo53: int := 0x20_0000_0000_0000
  const TwoTo64: int := 0x1_0000_0000_0000_0000

  function Pow(b: nat, k: nat): (p: nat)
    ensures b > 0 ==> p > 0
  {
    if k == 0 then 1 else b * Pow(b, k - 1)
  }

  /** The 64-bit two's complement pattern of `n`, read as an unsigned number. */
  function Unsigned(n: Long): (u: nat)
    ensures u < TwoTo64
    ensures n >= 0 ==> u == n
    ensures n < 0 ==> u == n + TwoTo64
  {
    if n < 0 then n + TwoTo64 else n
  }

  /** Java's narrowing cast `(int) x`: keep the low 32 bits, read them as two's complement. */
  function ToInt(x: int): Int
  {
    var low := x % TwoTo32;
    if low < TwoTo31 then low else low - TwoTo32
  }

  /** Bitwise exclusive or of two bit patterns. */
  function Xor(a: nat, b: nat): nat
    decreases a + b
  {
    if a == 0 && b == 0 then 0
    else 2 * Xor(a / 2, b / 2) + (if a % 2 == b % 2 then 0 else 1)
  }

  /** Bitwise and of two bit patterns. */
  function And(a: nat, b: nat): nat
    decreases a + b
  {
    if a == 0 && b == 0 then 0
    else 2 * And(a / 2, b / 2) + (if a % 2 == 1 && b % 2 == 1 then 1 else 0)
  }

  // ---------------------------------------------------------------------------
  // Arithmetic helpers

  /** Division with remainder has exactly one answer. */
  lemma ModUnique(n: int, m: int, q: int, s: int)
    requires m > 0 && 0 <= s < m && n == q * m + s
    ensures n / m == q && n % m == s
  {
    var d := q - n / m;
    assert d * m == n % m - s;
    MulAtLeast(d, m);
    MulAtLeast(-d, m);
  }

  lemma MulAssoc(r: int, p: int)
    ensures 2 * (r * p) == r * (2 * p)
  {
  }

  lemma MulLeftAssoc(a: int, b: int, c: int)
    ensures (a * b) * c == a * (b * c)
  {
  }

  lemma MulAtLeast(d: int, m: int)
    requires m > 0
    ensures d >= 1 ==> d * m >= m
  {
  }

  lemma {:induction false} PowAdd(b: nat, m: nat, n: nat)
    ensures Pow(b, m + n) == Pow(b, m) * Pow(b, n)
  {
    if m > 0 {
      PowAdd(b, m - 1, n);
      assert Pow(b, m + n) == b * Pow(b, m - 1 + n);
    }
  }

  /** The powers of two that the numeric helpers use as constants. */
  lemma PowersOfTwo()
    ensures Pow(2, 11) == 2048
    ensures Pow(2, 32) == TwoTo32
    ensures Pow(2, 53) == TwoTo53
    ensures Pow(2, 64) == TwoTo64
  {
    assert Pow(2, 8) == 256;
    assert Pow(2, 5) == 32;
    assert Pow(2, 11) == 2048;
    assert Pow(2, 16) == 0x1_0000 by { PowAdd(2, 8, 8); }
    assert Pow(2, 32) == TwoTo32 by { PowAdd(2, 16, 16); }
    assert Pow(2, 48) == 0x1_0000_0000_0000 by { PowAdd(2, 32, 16); }
    assert Pow(2, 53) == TwoTo53 by { PowAdd(2, 48, 5); }
    assert Pow(2, 64) == TwoTo64 by { PowAdd(2, 32, 32); }
  }

  /** Appending one low bit `t` to `x` and reducing modulo 2p appends it to `x % p`. */
  lemma ModDouble(x: nat, t: nat, p: nat)
    requires t < 2 && p > 0
    ensures (2 * x + t) % (2 * p) == 2 * (x % p) + t
  {
    var q, r := x / p, x % p;
    assert 2 * x + t == q * (2 * p) + (2 * r + t);
    ModUnique(2 * x + t, 2 * p, q, 2 * r + t);
  }

  /** Halving commutes with reduction modulo a power of two, and the low bit survives it. */
  lemma HalfMod(a: nat, p: nat)
    requires p > 0
    ensures (a % (2 * p)) / 2 == (a / 2) % p
    ensures (a % (2 * p)) % 2 == a % 2
  {
    var q, r := a / (2 * p), a % (2 * p);
    assert a == q * (2 * p) + r;
    assert a / 2 == q * p + r / 2 by {
      ModUnique(a, 2, q * p + r / 2, r % 2);
    }
    ModUnique(a / 2, p, q, r / 2);
    ModUnique(a, 2, q * p + r / 2, r % 2);
  }

  lemma DivDiv(u: nat, p: nat)
    requires p > 0
    ensures (u / 2) / p == u / (2 * p)
  {
    var q, r := u / (2 * p), u % (2 * p);
    assert u == q * (2 * p) + r;
    ModUnique(u, 2, q * p + r / 2, r % 2);
    ModUnique(u / 2, p, q, r / 2);
  }

  /** The cast changes its argument by a multiple of 2^32 and leaves every int-sized value alone. */
  lemma ToIntCongruent(x: int)
    ensures (ToInt(x) - x) % TwoTo32 == 0
    ensures -TwoTo31 <= x < TwoTo31 ==> ToInt(x) == x
  {
    var low := x % TwoTo32;
    if -TwoTo31 <= x < TwoTo31 {
      if x >= 0 {
        ModUnique(x, TwoTo32, 0, x);
      } else {
        ModUnique(x, TwoTo32, -1, x + TwoTo32);
      }
    }
    var k := if low < TwoTo31 then -(x / TwoTo32) else -(x / TwoTo32) - 1;
    assert ToInt(x) - x == k * TwoTo32;
    ModUnique(ToInt(x) - x, TwoTo32, k, 0);
  }

  /** Two integers that differ by a multiple of 2^32 cast to the same int. */
  lemma ToIntOfCongruent(x: int, y: int)
    requires (x - y) % TwoTo32 == 0
    ensures ToInt(x) == ToInt(y)
  {
    var j := (x - y) / TwoTo32;
    var q, r := y / TwoTo32, y % TwoTo32;
    assert x == (q + j) * TwoTo32 + r;
    ModUnique(x, TwoTo32, q + j, r);
  }

  /** The cast only looks at the low 32 bits. */
  lemma ToIntOfLowBits(x: int)
    ensures ToInt(x) == ToInt(x % TwoTo32)
  {
    ModUnique(x % TwoTo32, TwoTo32, 0, x % TwoTo32);
  }

  /**
   * Java's `c * acc + h` on ints wraps at every step; wrapping only once at the
   * end gives the same int.
   */
  lemma ToIntMulAdd(y: int, c: int, h: int)
    ensures ToInt(c * ToInt(y) + h) == ToInt(c * y + h)
  {
    ToIntCongruent(y);
    var j := (ToInt(y) - y) / TwoTo32;
    assert ToInt(y) - y == j * TwoTo32;
    assert (c * ToInt(y) + h) - (c * y + h) == (c * j) * TwoTo32;
    ModUnique((c * ToInt(y) + h) - (c * y + h), TwoTo32, c * j, 0);
    ToIntOfCongruent(c * ToInt(y) + h, c * y + h);
  }

  // ---------------------------------------------------------------------------
  // Bit-level facts

  lemma {:induction false} XorZero(a: nat)
    ensures Xor(a, 0) == a
  {
    if a > 0 {
      XorZero(a / 2);
    }
  }

  /** The low k bits of an exclusive or depend only on the low k bits of its operands. */
  lemma {:induction false} XorLowBits(a: nat, b: nat, k: nat)
    ensures Xor(a, b) % Pow(2, k) == Xor(a % Pow(2, k), b % Pow(2, k))
  {
    var m := Pow(2, k);
    if k == 0 {
      assert m == 1;
    } else if a == 0 && b == 0 {
    } else {
      var p := Pow(2, k - 1);
      assert m == 2 * p;
      var a', b' := a % m, b % m;
      HalfMod(a, p);
      HalfMod(b, p);
      assert a' / 2 == (a / 2) % p && a' % 2 == a % 2;
      assert b' / 2 == (b / 2) % p && b' % 2 == b % 2;
      var t := if a % 2 == b % 2 then 0 else 1;
      var x := Xor(a / 2, b / 2);
      XorLowBits(a / 2, b / 2, k - 1);
      assert x % p == Xor(a' / 2, b' / 2);
      ModDouble(x, t, p);
      calc {
        Xor(a, b) % m;
        (2 * x + t) % (2 * p);
        2 * (x % p) + t;
        2 * Xor(a' / 2, b' / 2) + t;
        Xor(a', b');
      }
    }
  }

  /** Exclusive or with k one-bits flips each of the low k bits. */
  lemma {:induction false} XorAllOnes(a: nat, k: nat)
    requires a < Pow(2, k)
    ensures Xor(a, Pow(2, k) - 1) == Pow(2, k) - 1 - a
  {
    if k > 0 {
      var p := Pow(2, k - 1);
      XorAllOnes(a / 2, k - 1);
      assert (2 * p - 1) / 2 == p - 1;
    }
  }

  lemma {:induction false} AndZero(u: nat)
    ensures And(0, u) == 0
  {
    if u > 0 {
      AndZero(u / 2);
    }
  }

  /** And-ing with c shifted left by k keeps the bits of u at positions k and above that c selects. */
  lemma {:induction false} AndShifted(c: nat, u: nat, k: nat)
    ensures And(c * Pow(2, k), u) == And(c, u / Pow(2, k)) * Pow(2, k)
  {
    if k == 0 {
      assert Pow(2, k) == 1;
    } else if c == 0 {
      AndZero(u);
      AndZero(u / Pow(2, k));
    } else {
      var p, m := Pow(2, k - 1), Pow(2, k);
      assert m == 2 * p;
      AndShifted(c, u / 2, k - 1);
      DivDiv(u, p);
      MulAssoc(c, p);
      MulAtLeast(c, p);
      AndShiftStep(u, p, c * p, And(c, u / m));
    }
  }

  /** One step of AndShifted: a mask `2 * cp` has a zero low bit, so And drops u's low bit. */
  lemma AndShiftStep(u: nat, p: nat, cp: nat, r: nat)
    requires cp > 0
    requires And(cp, u / 2) == r * p
    ensures And(2 * cp, u) == r * (2 * p)
  {
    assert (2 * cp) / 2 == cp && (2 * cp) % 2 == 0;
    MulAssoc(r, p);
  }

  /** And-ing with k one-bits keeps the low k bits. */
  lemma {:induction false} AndLowOnes(v: nat, k: nat)
    ensures And(Pow(2, k) - 1, v) == v % Pow(2, k)
  {
    if k == 0 {
      AndZero(v);
    } else {
      var p := Pow(2, k - 1);
      assert (2 * p - 1) / 2 == p - 1;
      AndLowOnes(v / 2, k - 1);
      ModDouble(v / 2, v % 2, p);
    }
  }
}
