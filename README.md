# Numeric values and the native numeric schema index reader

This project models two parts of the Neo4j kernel in Dafny.

**`NumberValues`** holds the static helpers the value layer uses for numbers:
- `hash(long)` and the hashes of `byte[]`, `short[]`, `int[]` and `long[]` arrays;
- `numbersEqual` between a double and a long, and between numeric arrays;
- `compareDoubleAgainstLong` and `compareLongAgainstDouble`;
- the length-first array comparators for integral, integral-versus-float, float and boolean arrays.

**`NativeSchemaNumberIndexReader`** answers one index predicate at a time:
- It holds two reusable tree keys. It sets them up for an `exists`, `exact` or `rangeNumeric` predicate.
- It opens a seek on the tree between them and registers the cursor in `openSeekers`.
- `close` closes every registered cursor.
- `countIndexedNodes` counts the hits of one node without registering its cursor.

Files:
- `java_primitives.dfy` (module `JavaPrimitives`):
  - Java's `long` and `int` as bounded integers.
  - The bitwise operators the helpers use, on natural-number bit patterns: `^` as `Xor`, `&` as `And`, `>>> 32` as division of the unsigned pattern, and `(int)` as `ToInt`.
  - The arithmetic and bit-level lemmas about them.
- `number_values.dfy` (module `NumberValues`):
  - Integral behaviour is modelled exactly.
  - A double is a value of an abstract type `D`. Each Java operation the code applies to a double (`Double.isNaN`, `d < 0.0`, `Double.compare`, the `BigDecimal` comparison, …) is a field of a `DoubleSemantics<D>` record.
- `number_index_reader.dfy` (module `SchemaNumberIndex`):
  - The reader is a class with the fields `treeKeyFrom`, `treeKeyTo` and `openSeekers`, and a ghost record `issued` of every cursor it opened.
  - `Valid()` states that no cursor leaks: every issued cursor is still registered or has been closed.
  - The tree's seek is a function field that returns either the hits between two keys or an I/O failure.
  - A cursor is a `Seeker` object that counts how often it was closed.

## Model

| member | source | states |
|---|---|---|
| NumberValues.HashLong | community/values/src/main/java/org/neo4j/values/NumberValues.java:39-42 | hash(long), following the source expression; its contract states that the hash is the low 32 bits of the two's complement pattern xor its high 32 bits, read as an int (HashOfIntRange gives the int-range values) |
| NumberValues.HashOfIntRange | community/values/src/main/java/org/neo4j/values/NumberValues.java:39-42 | a long in int range hashes to itself when non-negative and to -n-1 when negative; in particular every n in [0, 2^31) hashes to n |
| NumberValues.HashIntegralArray | community/values/src/main/java/org/neo4j/values/NumberValues.java:55-97 | the loop of the four integral array hashes computes the fold ArrayHash (start at 1, then 31*result + hash(element) with int wraparound, in element order); the empty array hashes to 1 |
| NumberValues.ArrayHashIsPolynomial | community/values/src/main/java/org/neo4j/values/NumberValues.java:55-97 | the wrapped fold equals 31^n plus the sum of 31^(n-1-i)*hash(values[i]), wrapped to an int only once at the end |
| NumberValues.PolynomialSumAppend | community/values/src/main/java/org/neo4j/values/NumberValues.java:55-97 | appending an element multiplies the polynomial by 31 and adds the element's hash, as one loop step does |
| NumberValues.MaskKeepsHighBits | community/values/src/main/java/org/neo4j/values/NumberValues.java:37 | NON_DOUBLE_LONG & n keeps exactly bits 53 to 63 of n's bit pattern |
| NumberValues.MaskTestNegative | community/values/src/main/java/org/neo4j/values/NumberValues.java:128-135 | for negative n, (NON_DOUBLE_LONG & n) == NON_DOUBLE_LONG iff n >= -2^53 |
| NumberValues.MaskTestNonNegative | community/values/src/main/java/org/neo4j/values/NumberValues.java:146-153 | for non-negative n, (NON_DOUBLE_LONG & n) == 0 iff n < 2^53 |
| NumberValues.MaskAllSetIffSmallNegative | community/values/src/main/java/org/neo4j/values/NumberValues.java:170 | the test in compareDoubleAgainstLong finds all eleven high bits set iff -2^53 <= n < 0 |
| NumberValues.NumbersEqualDoubleLong | community/values/src/main/java/org/neo4j/values/NumberValues.java:126-165 | numbersEqual(double, long), with the same branch structure as the source; its contract states that a double and a long of opposite signs are never equal (NumbersEqualWithinMantissa and NumbersEqualBeyondMantissa give the full answer) |
| NumberValues.NumbersEqualWithinMantissa | community/values/src/main/java/org/neo4j/values/NumberValues.java:126-165 | for -2^53 <= n < 2^53, numbersEqual(double, long) holds iff the signs agree and the double equals n converted to double |
| NumberValues.NumbersEqualBeyondMantissa | community/values/src/main/java/org/neo4j/values/NumberValues.java:126-165 | beyond 2^53, numbersEqual(double, long) holds iff the signs agree, the double is not below (double) Long.MIN_VALUE = -2^63 nor above (double) Long.MAX_VALUE = 2^63, is integral and finite, and its (long) cast is n |
| NumberValues.CompareDoubleAgainstLong | community/values/src/main/java/org/neo4j/values/NumberValues.java:168-183 | compareDoubleAgainstLong, with the same branch structure as the source; its contract states that Double.compare is used iff -2^53 <= rhs < 0, and every other rhs takes the NaN (+1), infinity (sign of the infinity) and BigDecimal branch |
| NumberValues.CompareLongAgainstDouble | community/values/src/main/java/org/neo4j/values/NumberValues.java:186-189 | compareLongAgainstDouble is the negated comparison the other way round; for lhs in [-2^53, 0) it is -Double.compare, otherwise a long orders below NaN, above negative infinity, below positive infinity, and else by the negated `BigDecimal.valueOf` comparison |
| NumberValues.NumbersEqualArrays | community/values/src/main/java/org/neo4j/values/NumberValues.java:191-240 | the early-exit loop of the three array numbersEqual overloads is true iff the lengths agree and every pair at the same index is equal; it is false whenever the lengths differ |
| NumberValues.NumbersEqualIntegral | community/values/src/main/java/org/neo4j/values/NumberValues.java:191-206 | numbersEqual of two integral arrays is true iff they are the same sequence of longs |
| NumberValues.NumbersEqualFloating | community/values/src/main/java/org/neo4j/values/NumberValues.java:208-223 | numbersEqual of two float arrays is true iff the lengths agree and every pair of doubles is == |
| NumberValues.NumbersEqualMixed | community/values/src/main/java/org/neo4j/values/NumberValues.java:225-240 | numbersEqual of a float array and an integral array is true iff the lengths agree and numbersEqual(double, long) holds at every index |
| NumberValues.IntegralEqualityIsSequenceEquality | community/values/src/main/java/org/neo4j/values/NumberValues.java:191-206 | elementwise longValue equality of equal-length arrays is sequence equality |
| NumberValues.IntegralNumbersEqualSymmetric | community/values/src/main/java/org/neo4j/values/NumberValues.java:191-206 | numbersEqual on integral arrays is symmetric |
| NumberValues.LongCompare | community/values/src/main/java/org/neo4j/values/NumberValues.java:250 | Long.compare is 0 iff the longs are equal and negative iff the first is smaller |
| NumberValues.BooleanCompare | community/values/src/main/java/org/neo4j/values/NumberValues.java:292 | Boolean.compare is 0 iff equal and negative iff false is compared with true |
| NumberValues.CompareArrays | community/values/src/main/java/org/neo4j/values/NumberValues.java:242-296 | the while loop shared by the four array comparators computes CompareBy: the length difference when lengths differ, otherwise the first nonzero element comparison, or 0 |
| NumberValues.CompareIntegerArrays | community/values/src/main/java/org/neo4j/values/NumberValues.java:242-254 | returns len(a) - len(b) when lengths differ, whatever the contents; otherwise Long.compare at the first differing index, or 0 |
| NumberValues.CompareIntegerVsFloatArrays | community/values/src/main/java/org/neo4j/values/NumberValues.java:256-268 | length difference first, then compareLongAgainstDouble at the first index where it is nonzero |
| NumberValues.CompareFloatArrays | community/values/src/main/java/org/neo4j/values/NumberValues.java:270-282 | length difference first, then Double.compare at the first index where it is nonzero |
| NumberValues.CompareBooleanArrays | community/values/src/main/java/org/neo4j/values/NumberValues.java:284-296 | length difference first, then Boolean.compare at the first differing index |
| NumberValues.FirstDifferenceDecides | community/values/src/main/java/org/neo4j/values/NumberValues.java:242-296 | with equal lengths, the first index whose elements compare nonzero decides the array comparison |
| NumberValues.CompareByZeroIff | community/values/src/main/java/org/neo4j/values/NumberValues.java:242-296 | an array comparison is 0 iff the lengths agree and every pair of elements compares 0 |
| NumberValues.CompareByAntisymmetric | community/values/src/main/java/org/neo4j/values/NumberValues.java:242-296 | an antisymmetric element comparator gives an antisymmetric array comparator |
| NumberValues.IntegerArraysReflexive | community/values/src/main/java/org/neo4j/values/NumberValues.java:242-254 | compareIntegerArrays(a, a) == 0 |
| NumberValues.IntegerArraysAntisymmetric | community/values/src/main/java/org/neo4j/values/NumberValues.java:242-254 | sign(compareIntegerArrays(a, b)) == -sign(compareIntegerArrays(b, a)) |
| NumberValues.IntegerArraysZeroIffNumbersEqual | community/values/src/main/java/org/neo4j/values/NumberValues.java:191-254 | compareIntegerArrays(a, b) == 0 iff numbersEqual(a, b), iff a and b are equal |
| NumberValues.BooleanArraysAntisymmetric | community/values/src/main/java/org/neo4j/values/NumberValues.java:284-296 | compareBooleanArrays is antisymmetric |
| NumberValues.BooleanArraysZeroIffEqual | community/values/src/main/java/org/neo4j/values/NumberValues.java:284-296 | compareBooleanArrays(a, b) == 0 iff the arrays are equal |
| SchemaNumberIndex.KeyRange | community/kernel/src/main/java/org/neo4j/kernel/impl/index/schema/NativeSchemaNumberIndexReader.java:116-137 | exists: from is lowest and to is highest. exact(v): from = (Long.MIN_VALUE, [v]) and to = (Long.MAX_VALUE, [v]). rangeNumeric: both tie-breaker flags are set; the from id is MIN_VALUE iff fromInclusive, else MAX_VALUE; the to id is MAX_VALUE iff toInclusive, else MIN_VALUE. Any other predicate keeps the flags as they were |
| SchemaNumberIndex.CountMatching | community/kernel/src/main/java/org/neo4j/kernel/impl/index/schema/NativeSchemaNumberIndexReader.java:91-99 | the number of hits whose key has entityId == nodeId lies between 0 and the hit count |
| SchemaNumberIndex.CountMatchingExtremes | community/kernel/src/main/java/org/neo4j/kernel/impl/index/schema/NativeSchemaNumberIndexReader.java:91-99 | the count is 0 iff no hit has the node's entity id, and equals the hit count iff every hit has it |
| SchemaNumberIndex.NativeSchemaNumberIndexReader.constructor | community/kernel/src/main/java/org/neo4j/kernel/impl/index/schema/NativeSchemaNumberIndexReader.java:53-60 | both keys start as the layout's new key and no cursor is registered |
| SchemaNumberIndex.Seeker.constructor | community/kernel/src/main/java/org/neo4j/kernel/impl/index/schema/NativeSchemaNumberIndexReader.java:51 | the RawCursor that tree.seek opens (line 153) and openSeekers holds: it carries the hits of its seek and starts never closed |
| SchemaNumberIndex.NativeSchemaNumberIndexReader.Query | community/kernel/src/main/java/org/neo4j/kernel/impl/index/schema/NativeSchemaNumberIndexReader.java:108-141 | fewer or more than one predicate: UnsupportedOperationException, nothing changes. An unsupported type: IllegalArgumentException with the source's message, nothing changes. Otherwise the keys become KeyRange of the predicate. A seek that opens registers exactly the new cursor; a seek that fails gives UncheckedIOException and registers nothing |
| SchemaNumberIndex.NativeSchemaNumberIndexReader.StartSeekForInitializedRange | community/kernel/src/main/java/org/neo4j/kernel/impl/index/schema/NativeSchemaNumberIndexReader.java:149-161 | seeks between the current keys; on success adds exactly the fresh cursor to openSeekers; on IOException reports UncheckedIO and leaves the set alone |
| SchemaNumberIndex.NativeSchemaNumberIndexReader.EnsureOpenSeekersClosed | community/kernel/src/main/java/org/neo4j/kernel/impl/index/schema/NativeSchemaNumberIndexReader.java:163-174 | closes every registered cursor exactly once, even after a failing one. It clears the set iff no close failed; otherwise it reports UncheckedIO and keeps the set |
| SchemaNumberIndex.NativeSchemaNumberIndexReader.Close | community/kernel/src/main/java/org/neo4j/kernel/impl/index/schema/NativeSchemaNumberIndexReader.java:62-66 | close() is ensureOpenSeekersClosed() |
| SchemaNumberIndex.NativeSchemaNumberIndexReader.CountIndexedNodes | community/kernel/src/main/java/org/neo4j/kernel/impl/index/schema/NativeSchemaNumberIndexReader.java:85-105 | both keys become (nodeId, values). The result is CountMatching over the seek's hits, or UncheckedIO when the seek fails. openSeekers is unchanged |
| SchemaNumberIndex.NativeSchemaNumberIndexReader.HasFullNumberPrecision | community/kernel/src/main/java/org/neo4j/kernel/impl/index/schema/NativeSchemaNumberIndexReader.java:143-147 | always true |
| SchemaNumberIndex.CloseTwice | community/kernel/src/main/java/org/neo4j/kernel/impl/index/schema/NativeSchemaNumberIndexReader.java:62-66 | after a clean close, a second close closes nothing: each cursor has been closed exactly once and the set is empty |
| SchemaNumberIndex.CloseAfterFailedClose | community/kernel/src/main/java/org/neo4j/kernel/impl/index/schema/NativeSchemaNumberIndexReader.java:163-174 | a close in which one cursor fails reports UncheckedIO and keeps the whole set (line 168 is skipped), so the next clean close closes every cursor, including those that closed cleanly the first time, a second time, and then empties the set |

## Left out

- `hash(double)`, `hash(float[])` and `hash(double[])` are not modelled. They depend on the IEEE bit layout (`Double.doubleToLongBits`) and on the `(long)` conversion of a double.
- `hash(boolean[])` is not modelled. It delegates to `java.util.Arrays.hashCode`, which is not part of this model.
- NumberValues.CompareDoubleAgainstLong: the `BigDecimal` branch is an abstract parameter, so the model does not capture that `BigDecimal.valueOf(d)` compares the shortest decimal that `Double.toString` prints rather than the double's exact value (for d = 2^60 it compares 1152921504606847000 against 2^60 = 1152921504606846976, giving +1 where numbersEqual says equal).
- NumberValues.NumbersEqualDoubleLong: the bound tests `fpn < Long.MIN_VALUE` and `fpn > Long.MAX_VALUE` and the cast `(long) fpn` are abstract parameters, so the model does not capture that the widened bound is 2^63 and that `(long) fpn` saturates (numbersEqual(2^63, Long.MAX_VALUE) is true in the source).
- IEEE double semantics and `BigDecimal` are abstract. Each Java operation on a double is a parameter (`DoubleSemantics`), so results that depend on what those operations compute are not derived.
- NumberValues.NumbersEqualFloating: it uses the abstract `==` on doubles, so NaN and signed-zero behaviour is not captured.
- Array lengths and the `length - b.length()` subtraction are unbounded integers. Java's 32-bit lengths cannot make that subtraction overflow.
- The array arguments (`IntegralArray`, `FloatingPointArray`, `BooleanArray`) are sequences of their `longValue`, `doubleValue` or `booleanValue` elements.
- `createSampler` is not modelled. It builds an external full-scan sampler from a default `Config`.
- `NumberHitIterator` is not part of this model. A query returns the registered cursor itself, and no cursor removes itself from `openSeekers` when it is exhausted.
- SchemaNumberIndex.NativeSchemaNumberIndexReader.Query, SchemaNumberIndex.NativeSchemaNumberIndexReader.StartSeekForInitializedRange and SchemaNumberIndex.NativeSchemaNumberIndexReader.CountIndexedNodes: key aliasing is not modelled. The source passes its two reused key objects by reference to `tree.seek`, and a cursor opened that way may still be open in `openSeekers` when the next `query` or `countIndexedNodes` overwrites those objects in place. The model gives each seek a copy of the keys and fixes the cursor's hits when it is opened, so it decides that a later query cannot change an earlier open cursor's bounds; in the source that depends on the tree, which is not part of this model.
- The tree is not modelled. `GBPTree`, its key ordering, its seek bounds and its page I/O are abstracted to the `seek` function field, so nothing is assumed about inclusive or exclusive bounds.
- `Values.of` conversion is not modelled. The bounds of a `rangeNumeric` predicate are given already converted to the value type `V`.
- `Hit` carries only its key. The value payload beside the key is not used by the reader.
- Cursor close failures are an input. They are given as the set `ioFailures` of cursors whose `close` throws, and the suppressed-exception aggregation of `IOUtils.closeAll` is reduced to a single `UncheckedIO` outcome.
- SchemaNumberIndex.NativeSchemaNumberIndexReader.CountIndexedNodes: only a failure of the initial seek is modelled. An `IOException` thrown by `next()` during iteration or by the cursor's close at the end of the try-with-resources is not.
- Concurrency is not modelled. The reader uses an unsynchronised `HashSet`, so there is nothing concurrent to model.
- The key setters `from`, `initAsLowest` and `initAsHighest` (in `SchemaNumberKey`, not part of this model) are assumed to change only the entity id, values and marker, never `entityIdIsSpecialTieBreaker`. As a result, a flag that a range query set stays set through later `exists` and `exact` queries on the same reader.
