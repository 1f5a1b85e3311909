/** `to_multiple_of_batch`, the helper the benchmarks use to size their
    workloads: round a count up to a whole number of batches.

    The source computes in `uint64_t`, so `number + batch_size - 1` is
    reduced modulo 2^64; `Wrap` writes that reduction out. Below the top of
    the range the result is the least multiple of the batch size not below
    the input; near the top the sum wraps and the result falls below it.
    The module is named after benchmark_util.h, whose C++ namespace
    `Benchmark` holds this function. */
module BenchmarkUtil {
  import Arithmetic

  const U64Modulus: int := 0x1_0000_0000_0000_0000

  /** The values of C++'s `uint64_t`. */
  type U64 = x: int | 0 <= x < U64Modulus

  /** C++ unsigned arithmetic: the exact result reduced modulo 2^64. */
  function Wrap(x: int): (r: U64)
    ensures 0 <= x < U64Modulus ==> r == x
    ensures U64Modulus <= x < 2 * U64Modulus ==> r == x - U64Modulus
  {
    x % U64Modulus
  }

  /** The sum `number + batch_size - 1` fits in a `uint64_t`. */
  predicate NoWrap(number: U64, batchSize: U64) {
    number + batchSize - 1 < U64Modulus
  }

  function ToMultipleOfBatch(number: U64, batchSize: U64): (r: U64)
    requires batchSize > 0
    ensures r % batchSize == 0
    ensures NoWrap(number, batchSize) ==> number <= r < number + batchSize
    ensures !NoWrap(number, batchSize) ==> r < number
  {
    var sum := Wrap(number + batchSize - 1);
    Arithmetic.DivBounds(sum, batchSize);
    Arithmetic.MultipleDivides(sum / batchSize, batchSize);
    (sum / batchSize) * batchSize
  }

  /** Without wrap-around the result is the least multiple of the batch size
      that is not below the input. */
  lemma ToMultipleOfBatchIsLeast(number: U64, batchSize: U64, m: int)
    requires batchSize > 0 && NoWrap(number, batchSize)
    requires m % batchSize == 0 && m >= number
    ensures ToMultipleOfBatch(number, batchSize) <= m
  {
    var r := ToMultipleOfBatch(number, batchSize);
    if m < r {
      Arithmetic.MultiplesInWindowAreEqual(r, m, number, batchSize);
    }
  }

  /** A count that is already a whole number of batches is left alone; in
      particular 0 maps to 0. */
  lemma ToMultipleOfBatchFixesMultiples(number: U64, batchSize: U64)
    requires batchSize > 0 && NoWrap(number, batchSize)
    requires number % batchSize == 0
    ensures ToMultipleOfBatch(number, batchSize) == number
  {
    Arithmetic.MultiplesInWindowAreEqual(ToMultipleOfBatch(number, batchSize), number,
                                         number, batchSize);
  }

  /** Rounding twice is rounding once, as long as the second sum does not wrap. */
  lemma ToMultipleOfBatchIdempotent(number: U64, batchSize: U64)
    requires batchSize > 0
    requires NoWrap(ToMultipleOfBatch(number, batchSize), batchSize)
    ensures ToMultipleOfBatch(ToMultipleOfBatch(number, batchSize), batchSize)
            == ToMultipleOfBatch(number, batchSize)
  {
    ToMultipleOfBatchFixesMultiples(ToMultipleOfBatch(number, batchSize), batchSize);
  }

  /** At the top of the range the sum wraps: 2^64 - 3 rounds to the multiple
      2^64 - 1 of 3, and rounding that again gives 0, so rounding is not
      idempotent there and the second result lies below its input. */
  lemma ToMultipleOfBatchWrapsAtTop()
    ensures ToMultipleOfBatch(U64Modulus - 3, 3) == U64Modulus - 1
    ensures ToMultipleOfBatch(U64Modulus - 1, 3) == 0
  {
  }

  /** Without wrap-around, rounding up is monotone. */
  lemma ToMultipleOfBatchMonotone(a: U64, b: U64, batchSize: U64)
    requires batchSize > 0 && a <= b && NoWrap(b, batchSize)
    ensures ToMultipleOfBatch(a, batchSize) <= ToMultipleOfBatch(b, batchSize)
  {
    ToMultipleOfBatchIsLeast(a, batchSize, ToMultipleOfBatch(b, batchSize));
  }

  /** Without wrap-around the result is the ceiling of the exact quotient
      number / batch_size, in whole batches. */
  lemma ToMultipleOfBatchIsCeilingOfQuotient(number: U64, batchSize: U64)
    requires batchSize > 0 && NoWrap(number, batchSize)
    ensures var q := ToMultipleOfBatch(number, batchSize) / batchSize;
            ToMultipleOfBatch(number, batchSize) == q * batchSize
            && (q - 1) as real < number as real / batchSize as real <= q as real
  {
    var r := ToMultipleOfBatch(number, batchSize);
    var q := r / batchSize;
    assert r == q * batchSize;
    // (q - 1) * batchSize < number <= q * batchSize, divided by batchSize.
    assert (q * batchSize) as real == q as real * batchSize as real;
    assert ((q - 1) * batchSize) as real == (q - 1) as real * batchSize as real;
    Arithmetic.QuotientCompare(number as real, batchSize as real, q as real);
    Arithmetic.QuotientCompare(number as real, batchSize as real, (q - 1) as real);
  }
}
