/**
 * Hashing, equality and ordering of numbers and numeric arrays, as the value
 * layer defines them for the numeric schema index.
 *
 * Everything integral is modelled exactly: `long` and `int` are bounded
 * integers, Java's `^`, `&`, `>>>` and `(int)` are the operations of module
 * JavaPrimitives. Floating point is not: a double is a value of an abstract type
 * `D`, and what the code asks of it (`Double.isNaN`, `d < 0.0`, `Double.compare`,
 * the `BigDecimal` comparison, ...) is supplied as a `DoubleSemantics<D>` record
 * of functions.
 */
module NumberValues {
  import opened JavaPrimitives

  /** The eleven high bits of a long: a long whose high bits are all copies of its sign fits in a double's mantissa. */
  const NonDoubleLong: nat := 0xFFE0_0000_0000_0000

  // ---------------------------------------------------------------------------
  // hash(long) and the integral array hashes

  /**
   * hash(long): `(int) (number ^ (number >>> 32))`, where `>>> 32` divides the
   * unsigned bit pattern by 2^32. The hash is the low 32 bits of the pattern xor
   * its high 32 bits, read as an int.
   */
  function HashLong(n: Long): (h: Int)
    ensures h == ToInt(Xor(Unsigned(n) % TwoTo32, Unsigned(n) / TwoTo32))
  {
    var bits := Unsigned(n);
    CastKeepsLowHalf(bits);
    ToInt(Xor(bits, bits / TwoTo32))
  }

  /** The cast keeps only the low 32 bits of `u ^ high`, and those depend only on the low 32 bits of u. */
  lemma CastKeepsLowHalf(u: nat)
    requires u < TwoTo64
    ensures ToInt(Xor(u, u / TwoTo32)) == ToInt(Xor(u % TwoTo32, u / TwoTo32))
  {
    var high := u / TwoTo32;
    PowersOfTwo();
    XorLowBits(u, high, 32);
    ModUnique(high, TwoTo32, 0, high);
    ToIntOfLowBits(Xor(u, high));
    ToIntOfLowBits(Xor(u % TwoTo32, high));
    ModUnique(Xor(u % TwoTo32, high) % TwoTo32, TwoTo32, 0, Xor(u % TwoTo32, high) % TwoTo32);
  }

  /**
   * Every value of int range (so every byte, short and int element, which the
   * array hashes widen to long) hashes to itself when non-negative and to
   * `-n - 1` when negative.
   */
  lemma HashOfIntRange(n: Long)
    requires -TwoTo31 <= n < TwoTo31
    ensures HashLong(n) == if n >= 0 then n else -n - 1
  {
    PowersOfTwo();
    if n >= 0 {
      assert Unsigned(n) / TwoTo32 == 0;
      XorZero(n);
      ToIntCongruent(n);
    } else {
      var u := Unsigned(n);
      ModUnique(u, TwoTo32, TwoTo32 - 1, n + TwoTo32);
      XorAllOnes(n + TwoTo32, 32);
      ToIntCongruent(-n - 1);
    }
  }

  /**
   * The array hash: start at 1 and fold `31 * result + hash(element)` over the
   * elements in order, with int wraparound at every step.
   */
  function ArrayHash(values: seq<Long>): Int
  {
    if values == [] then 1
    else ToInt(31 * ArrayHash(values[..|values| - 1]) + HashLong(values[|values| - 1]))
  }

  /**
   * hash(byte[]), hash(short[]), hash(int[]) and hash(long[]): the four loops are
   * the same once each element is widened to long, which is what they hash.
   */
  method HashIntegralArray(values: array<Long>) returns (result: Int)
    ensures result == ArrayHash(values[..])
    ensures values.Length == 0 ==> result == 1
  {
    result := 1;
    for i := 0 to values.Length
      invariant result == ArrayHash(values[..i])
    {
      var elementHash := HashLong(values[i]);
      result := ToInt(31 * result + elementHash);
      assert values[..i + 1][..i] == values[..i];
    }
    assert values[..values.Length] == values[..];
  }

  /** The sum of `31^(n-1-i) * hash(values[i])` over the n elements. */
  function PolynomialSum(values: seq<Long>): int
  {
    if values == [] then 0
    else Pow(31, |values| - 1) * HashLong(values[0]) + PolynomialSum(values[1..])
  }

  lemma {:induction false} PolynomialSumAppend(values: seq<Long>, x: Long)
    ensures PolynomialSum(values + [x]) == 31 * PolynomialSum(values) + HashLong(x)
  {
    if values == [] {
      assert [x][1..] == [];
    } else {
      var rest, h0, k := values[1..], HashLong(values[0]), |values|;
      assert (values + [x])[0] == values[0];
      assert (values + [x])[1..] == rest + [x];
      PolynomialSumAppend(rest, x);
      var p := Pow(31, k - 1);
      assert Pow(31, k) == 31 * p;
      MulLeftAssoc(31, p, h0);
      calc {
        PolynomialSum(values + [x]);
        Pow(31, k) * h0 + PolynomialSum(rest + [x]);
        31 * (p * h0) + (31 * PolynomialSum(rest) + HashLong(x));
        31 * (p * h0 + PolynomialSum(rest)) + HashLong(x);
        31 * PolynomialSum(values) + HashLong(x);
      }
    }
  }

  /**
   * The array hash is the polynomial `31^n + sum of 31^(n-1-i) * hash(values[i])`
   * reduced to an int once, at the end.
   */
  lemma {:induction false} ArrayHashIsPolynomial(values: seq<Long>)
    ensures ArrayHash(values) == ToInt(Pow(31, |values|) + PolynomialSum(values))
  {
    if values == [] {
      ToIntCongruent(1);
    } else {
      var prefix, x := values[..|values| - 1], values[|values| - 1];
      assert values == prefix + [x];
      ArrayHashIsPolynomial(prefix);
      var y := Pow(31, |prefix|) + PolynomialSum(prefix);
      ToIntMulAdd(y, 31, HashLong(x));
      PolynomialSumAppend(prefix, x);
      assert 31 * y + HashLong(x) == Pow(31, |values|) + PolynomialSum(values);
    }
  }

  // ---------------------------------------------------------------------------
  // The NON_DOUBLE_LONG mask tests

  /** `NON_DOUBLE_LONG & n`, as an unsigned bit pattern. */
  function MaskedHighBits(n: Long): nat
  {
    And(NonDoubleLong, Unsigned(n))
  }

  /** The mask keeps bits 53 to 63 of the pattern and clears the rest. */
  lemma MaskKeepsHighBits(n: Long)
    ensures MaskedHighBits(n) == (Unsigned(n) / TwoTo53) * TwoTo53
  {
    var u := Unsigned(n);
    PowersOfTwo();
    assert NonDoubleLong == 2047 * Pow(2, 53);
    AndShifted(2047, u, 53);
    AndLowOnes(u / TwoTo53, 11);
    ModUnique(u / TwoTo53, 2048, 0, u / TwoTo53);
  }

  /** For a negative long, all eleven high bits are set exactly when n >= -2^53. */
  lemma MaskTestNegative(n: Long)
    requires n < 0
    ensures MaskedHighBits(n) == NonDoubleLong <==> n >= -TwoTo53
  {
    MaskKeepsHighBits(n);
  }

  /** For a non-negative long, all eleven high bits are clear exactly when n < 2^53. */
  lemma MaskTestNonNegative(n: Long)
    requires n >= 0
    ensures MaskedHighBits(n) == 0 <==> n < TwoTo53
  {
    MaskKeepsHighBits(n);
  }

  /** The test of compareDoubleAgainstLong: all high bits set happens only for -2^53 <= n < 0. */
  lemma MaskAllSetIffSmallNegative(n: Long)
    ensures MaskedHighBits(n) == NonDoubleLong <==> -TwoTo53 <= n < 0
  {
    MaskKeepsHighBits(n);
  }

  // ---------------------------------------------------------------------------
  // Mixed double / long comparison, over an abstract double type

  /** What the code asks of a double; each field names the Java expression it stands for. */
  datatype DoubleSemantics<!D> = DoubleSemantics(
    isNaN: D -> bool,                 // Double.isNaN(d)
    isInfinite: D -> bool,            // Double.isInfinite(d)
    isNegative: D -> bool,            // d < 0.0
    equalsLong: (D, Long) -> bool,    // d == n, with n converted to double
    belowLongMin: D -> bool,          // d < Long.MIN_VALUE, the bound widened to the double -2^63
    aboveLongMax: D -> bool,          // d > Long.MAX_VALUE, the bound widened (rounded) to the double 2^63
    isIntegral: D -> bool,            // d == Math.floor(d)
    toLong: D -> Long,                // (long) d, which saturates at Long.MIN_VALUE and Long.MAX_VALUE
    equals: (D, D) -> bool,           // d == e
    compare: (D, D) -> int,           // Double.compare(d, e)
    compareToLong: (D, Long) -> int,  // Double.compare(d, n)
    compareBigDecimals: (D, Long) -> int  // BigDecimal.valueOf(d).compareTo(BigDecimal.valueOf(n)), where
                                          // BigDecimal.valueOf(d) is the decimal Double.toString(d) prints
  )

  /**
   * numbersEqual(double, long), branch for branch. A double and a long of
   * opposite signs are never equal; the lemmas below give the rest.
   */
  function NumbersEqualDoubleLong<D>(fpn: D, n: Long, fp: DoubleSemantics<D>): (r: bool)
    ensures r ==> fp.isNegative(fpn) == (n < 0)
  {
    if n < 0 then
      fp.isNegative(fpn) &&
      (if MaskedHighBits(n) == NonDoubleLong then fp.equalsLong(fpn, n)
       else if fp.belowLongMin(fpn) then false
       else if fp.isIntegral(fpn) && !fp.isInfinite(fpn) then n == fp.toLong(fpn)
       else false)
    else
      !fp.isNegative(fpn) &&
      (if MaskedHighBits(n) == 0 then fp.equalsLong(fpn, n)
       else if fp.aboveLongMax(fpn) then false
       else if fp.isIntegral(fpn) && !fp.isInfinite(fpn) then n == fp.toLong(fpn)
       else false)
  }

  /**
   * A long of magnitude below 2^53 converts to double without loss, and for it
   * numbersEqual is the double comparison, once the signs agree.
   */
  lemma NumbersEqualWithinMantissa<D>(fpn: D, n: Long, fp: DoubleSemantics<D>)
    requires -TwoTo53 <= n < TwoTo53
    ensures NumbersEqualDoubleLong(fpn, n, fp) <==> fp.isNegative(fpn) == (n < 0) && fp.equalsLong(fpn, n)
  {
    if n < 0 {
      MaskTestNegative(n);
    } else {
      MaskTestNonNegative(n);
    }
  }

  /**
   * Beyond 2^53 the double comparison is never used: the answer is whether the
   * truncating cast `(long) d` gives n, for an integral finite double whose sign
   * agrees and that is not beyond `(double) Long.MIN_VALUE` or
   * `(double) Long.MAX_VALUE` (which is 2^63, so the double 2^63 passes and
   * saturates to Long.MAX_VALUE), and false otherwise.
   */
  lemma NumbersEqualBeyondMantissa<D>(fpn: D, n: Long, fp: DoubleSemantics<D>)
    requires n < -TwoTo53 || n >= TwoTo53
    ensures NumbersEqualDoubleLong(fpn, n, fp) <==>
      && fp.isNegative(fpn) == (n < 0)
      && !(if n < 0 then fp.belowLongMin(fpn) else fp.aboveLongMax(fpn))
      && fp.isIntegral(fpn) && !fp.isInfinite(fpn)
      && n == fp.toLong(fpn)
  {
    if n < 0 {
      MaskTestNegative(n);
    } else {
      MaskTestNonNegative(n);
    }
  }

  /**
   * compareDoubleAgainstLong(double, long), branch for branch. Double.compare
   * is used exactly for -2^53 <= rhs < 0; every non-negative rhs, even a small
   * one, and every rhs below -2^53 goes through the NaN, infinity and
   * `BigDecimal.valueOf` branch.
   */
  function CompareDoubleAgainstLong<D>(lhs: D, rhs: Long, fp: DoubleSemantics<D>): (r: int)
    ensures -TwoTo53 <= rhs < 0 ==> r == fp.compareToLong(lhs, rhs)
    ensures !(-TwoTo53 <= rhs < 0) ==>
      r == if fp.isNaN(lhs) then 1
           else if fp.isInfinite(lhs) then (if fp.isNegative(lhs) then -1 else 1)
           else fp.compareBigDecimals(lhs, rhs)
  {
    MaskAllSetIffSmallNegative(rhs);
    if MaskedHighBits(rhs) != NonDoubleLong then
      if fp.isNaN(lhs) then 1
      else if fp.isInfinite(lhs) then (if fp.isNegative(lhs) then -1 else 1)
      else fp.compareBigDecimals(lhs, rhs)
    else fp.compareToLong(lhs, rhs)
  }

  /**
   * compareLongAgainstDouble(long, double): the negated comparison the other
   * way round, so a long outside [-2^53, 0) orders below NaN, above negative
   * infinity and below positive infinity, and otherwise by the negated
   * `BigDecimal.valueOf` comparison.
   */
  function CompareLongAgainstDouble<D>(lhs: Long, rhs: D, fp: DoubleSemantics<D>): (r: int)
    ensures -TwoTo53 <= lhs < 0 ==> r == -fp.compareToLong(rhs, lhs)
    ensures !(-TwoTo53 <= lhs < 0) ==>
      r == if fp.isNaN(rhs) then -1
           else if fp.isInfinite(rhs) then (if fp.isNegative(rhs) then 1 else -1)
           else -fp.compareBigDecimals(rhs, lhs)
  {
    -CompareDoubleAgainstLong(rhs, lhs, fp)
  }

  // ---------------------------------------------------------------------------
  // Array equality

  /** Equal length and every pair of elements at the same index equal. */
  predicate ElementwiseEqual<A, B>(a: seq<A>, b: seq<B>, equal: (A, B) -> bool)
  {
    |a| == |b| && forall i :: 0 <= i < |a| ==> equal(a[i], b[i])
  }

  /** The loop shared by the three numbersEqual array overloads. */
  method NumbersEqualArrays<A, B>(lhs: seq<A>, rhs: seq<B>, equal: (A, B) -> bool) returns (r: bool)
    ensures r <==> ElementwiseEqual(lhs, rhs, equal)
    ensures |lhs| != |rhs| ==> !r
  {
    var length := |lhs|;
    if length != |rhs| {
      return false;
    }
    for i := 0 to length
      invariant forall j :: 0 <= j < i ==> equal(lhs[j], rhs[j])
    {
      if !equal(lhs[i], rhs[i]) {
        return false;
      }
    }
    return true;
  }

  function LongEquals(x: Long, y: Long): bool
  {
    x == y
  }

  /** Elementwise long equality of integral arrays is equality of the arrays. */
  lemma {:induction false} IntegralEqualityIsSequenceEquality(a: seq<Long>, b: seq<Long>)
    ensures ElementwiseEqual(a, b, LongEquals) <==> a == b
  {
    if ElementwiseEqual(a, b, LongEquals) {
      assert forall i :: 0 <= i < |a| ==> a[i] == b[i] by {
        forall i | 0 <= i < |a|
          ensures a[i] == b[i]
        {
          assert LongEquals(a[i], b[i]);
        }
      }
    }
  }

  /** numbersEqual(IntegralArray, IntegralArray). */
  method NumbersEqualIntegral(lhs: seq<Long>, rhs: seq<Long>) returns (r: bool)
    ensures r <==> lhs == rhs
  {
    r := NumbersEqualArrays(lhs, rhs, LongEquals);
    IntegralEqualityIsSequenceEquality(lhs, rhs);
  }

  /** numbersEqual(FloatingPointArray, FloatingPointArray). */
  method NumbersEqualFloating<D>(lhs: seq<D>, rhs: seq<D>, fp: DoubleSemantics<D>) returns (r: bool)
    ensures r <==> |lhs| == |rhs| && forall i :: 0 <= i < |lhs| ==> fp.equals(lhs[i], rhs[i])
  {
    r := NumbersEqualArrays(lhs, rhs, fp.equals);
  }

  /** The element test of numbersEqual(FloatingPointArray, IntegralArray). */
  function MixedEquals<D>(fp: DoubleSemantics<D>): (D, Long) -> bool
  {
    (d: D, n: Long) => NumbersEqualDoubleLong(d, n, fp)
  }

  /** numbersEqual(FloatingPointArray, IntegralArray). */
  method NumbersEqualMixed<D>(fps: seq<D>, ins: seq<Long>, fp: DoubleSemantics<D>) returns (r: bool)
    ensures r <==> |fps| == |ins| && forall i :: 0 <= i < |ins| ==> NumbersEqualDoubleLong(fps[i], ins[i], fp)
  {
    r := NumbersEqualArrays(fps, ins, MixedEquals(fp));
  }

  // ---------------------------------------------------------------------------
  // Array ordering: length first, then the first element that differs

  function Sign(x: int): int
  {
    if x < 0 then -1 else if x == 0 then 0 else 1
  }

  /** Long.compare. */
  function LongCompare(x: Long, y: Long): (r: int)
    ensures r == 0 <==> x == y
    ensures r < 0 <==> x < y
  {
    if x < y then -1 else if x == y then 0 else 1
  }

  /** Boolean.compare: false orders before true. */
  function BooleanCompare(x: bool, y: bool): (r: int)
    ensures r == 0 <==> x == y
    ensures r < 0 <==> !x && y
  {
    if x == y then 0 else if x then 1 else -1
  }

  /** The element comparator of compareIntegerVsFloatArrays. */
  function IntegerVsFloatCompare<D>(fp: DoubleSemantics<D>): (Long, D) -> int
  {
    (x: Long, y: D) => CompareLongAgainstDouble(x, y, fp)
  }

  /**
   * The order the array comparators compute: the difference of the lengths when
   * they differ, otherwise the comparison of the first pair of elements that
   * compare unequal, or 0.
   */
  function CompareBy<A, B>(a: seq<A>, b: seq<B>, compare: (A, B) -> int): int
  {
    if |a| != |b| then |a| - |b| else FirstDifference(a, b, compare)
  }

  function FirstDifference<A, B>(a: seq<A>, b: seq<B>, compare: (A, B) -> int): int
    requires |a| == |b|
  {
    if a == [] then 0
    else if compare(a[0], b[0]) != 0 then compare(a[0], b[0])
    else FirstDifference(a[1..], b[1..], compare)
  }

  /** The loop shared by compareIntegerArrays, compareIntegerVsFloatArrays, compareFloatArrays and compareBooleanArrays. */
  method CompareArrays<A, B>(a: seq<A>, b: seq<B>, compare: (A, B) -> int) returns (x: int)
    ensures x == CompareBy(a, b, compare)
  {
    var i := 0;
    var length := |a|;
    x := length - |b|;
    while x == 0 && i < length
      invariant 0 <= i <= length
      invariant x == 0 ==> |a| == |b| && FirstDifference(a[i..], b[i..], compare) == CompareBy(a, b, compare)
      invariant x != 0 ==> x == CompareBy(a, b, compare)
    {
      assert a[i..][1..] == a[i + 1..] && b[i..][1..] == b[i + 1..];
      x := compare(a[i], b[i]);
      i := i + 1;
    }
  }

  /** compareIntegerArrays. */
  method CompareIntegerArrays(a: seq<Long>, b: seq<Long>) returns (x: int)
    ensures |a| != |b| ==> x == |a| - |b|
    ensures x == CompareBy(a, b, LongCompare)
  {
    x := CompareArrays(a, b, LongCompare);
  }

  /** compareIntegerVsFloatArrays. */
  method CompareIntegerVsFloatArrays<D>(a: seq<Long>, b: seq<D>, fp: DoubleSemantics<D>) returns (x: int)
    ensures |a| != |b| ==> x == |a| - |b|
    ensures x == CompareBy(a, b, IntegerVsFloatCompare(fp))
  {
    x := CompareArrays(a, b, IntegerVsFloatCompare(fp));
  }

  /** compareFloatArrays. */
  method CompareFloatArrays<D>(a: seq<D>, b: seq<D>, fp: DoubleSemantics<D>) returns (x: int)
    ensures |a| != |b| ==> x == |a| - |b|
    ensures x == CompareBy(a, b, fp.compare)
  {
    x := CompareArrays(a, b, fp.compare);
  }

  /** compareBooleanArrays. */
  method CompareBooleanArrays(a: seq<bool>, b: seq<bool>) returns (x: int)
    ensures |a| != |b| ==> x == |a| - |b|
    ensures x == CompareBy(a, b, BooleanCompare)
  {
    x := CompareArrays(a, b, BooleanCompare);
  }

  /** With equal lengths, the first index whose elements compare unequal decides the order. */
  lemma {:induction false} FirstDifferenceDecides<A, B>(a: seq<A>, b: seq<B>, compare: (A, B) -> int, k: nat)
    requires |a| == |b| && k < |a|
    requires forall j :: 0 <= j < k ==> compare(a[j], b[j]) == 0
    requires compare(a[k], b[k]) != 0
    ensures CompareBy(a, b, compare) == compare(a[k], b[k])
  {
    if k > 0 {
      assert compare(a[0], b[0]) == 0;
      FirstDifferenceDecides(a[1..], b[1..], compare, k - 1);
    }
  }

  /** The comparison is 0 exactly when the lengths agree and every pair of elements compares equal. */
  lemma {:induction false} CompareByZeroIff<A, B>(a: seq<A>, b: seq<B>, compare: (A, B) -> int)
    ensures CompareBy(a, b, compare) == 0 <==>
      |a| == |b| && forall j :: 0 <= j < |a| ==> compare(a[j], b[j]) == 0
  {
    if |a| == |b| && a != [] {
      CompareByZeroIff(a[1..], b[1..], compare);
      if forall j :: 0 <= j < |a| ==> compare(a[j], b[j]) == 0 {
        assert forall j :: 0 <= j < |a| - 1 ==> compare(a[1..][j], b[1..][j]) == 0 by {
          forall j | 0 <= j < |a| - 1
            ensures compare(a[1..][j], b[1..][j]) == 0
          {
            assert compare(a[j + 1], b[j + 1]) == 0;
          }
        }
      }
      if CompareBy(a, b, compare) == 0 {
        forall j | 0 <= j < |a|
          ensures compare(a[j], b[j]) == 0
        {
          if j > 0 {
            assert compare(a[1..][j - 1], b[1..][j - 1]) == 0;
          }
        }
      }
    }
  }

  /** A comparator whose results flip sign when its arguments are swapped yields an array order that does the same. */
  lemma {:induction false} CompareByAntisymmetric<T>(a: seq<T>, b: seq<T>, compare: (T, T) -> int)
    requires forall x, y :: Sign(compare(x, y)) == -Sign(compare(y, x))
    ensures Sign(CompareBy(a, b, compare)) == -Sign(CompareBy(b, a, compare))
  {
    if |a| == |b| && a != [] {
      assert Sign(compare(a[0], b[0])) == -Sign(compare(b[0], a[0]));
      CompareByAntisymmetric(a[1..], b[1..], compare);
    }
  }

  /** compareIntegerArrays(a, a) == 0. */
  lemma IntegerArraysReflexive(a: seq<Long>)
    ensures CompareBy(a, a, LongCompare) == 0
  {
    CompareByZeroIff(a, a, LongCompare);
  }

  /** compareIntegerArrays(a, b) and compareIntegerArrays(b, a) have opposite signs. */
  lemma IntegerArraysAntisymmetric(a: seq<Long>, b: seq<Long>)
    ensures Sign(CompareBy(a, b, LongCompare)) == -Sign(CompareBy(b, a, LongCompare))
  {
    CompareByAntisymmetric(a, b, LongCompare);
  }

  /** compareIntegerArrays(a, b) == 0 exactly when numbersEqual(a, b), that is, when a and b are equal. */
  lemma IntegerArraysZeroIffNumbersEqual(a: seq<Long>, b: seq<Long>)
    ensures CompareBy(a, b, LongCompare) == 0 <==> ElementwiseEqual(a, b, LongEquals)
    ensures CompareBy(a, b, LongCompare) == 0 <==> a == b
  {
    CompareByZeroIff(a, b, LongCompare);
    IntegralEqualityIsSequenceEquality(a, b);
    if |a| == |b| && forall j :: 0 <= j < |a| ==> LongCompare(a[j], b[j]) == 0 {
      assert forall j :: 0 <= j < |a| ==> LongEquals(a[j], b[j]);
    }
  }

  /** numbersEqual on integral arrays is symmetric. */
  lemma IntegralNumbersEqualSymmetric(a: seq<Long>, b: seq<Long>)
    ensures ElementwiseEqual(a, b, LongEquals) <==> ElementwiseEqual(b, a, LongEquals)
  {
    IntegralEqualityIsSequenceEquality(a, b);
    IntegralEqualityIsSequenceEquality(b, a);
  }

  /** compareBooleanArrays(a, b) and compareBooleanArrays(b, a) have opposite signs. */
  lemma BooleanArraysAntisymmetric(a: seq<bool>, b: seq<bool>)
    ensures Sign(CompareBy(a, b, BooleanCompare)) == -Sign(CompareBy(b, a, BooleanCompare))
  {
    CompareByAntisymmetric(a, b, BooleanCompare);
  }

  /** compareBooleanArrays(a, b) == 0 exactly when the arrays are equal. */
  lemma BooleanArraysZeroIffEqual(a: seq<bool>, b: seq<bool>)
    ensures CompareBy(a, b, BooleanCompare) == 0 <==> a == b
  {
    CompareByZeroIff(a, b, BooleanCompare);
    if CompareBy(a, b, BooleanCompare) == 0 {
      assert forall j :: 0 <= j < |a| ==> a[j] == b[j];
    }
  }
}
