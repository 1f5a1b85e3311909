/** `round_to_appropriate_size`, the rounding the top-level benchmark
    applies to its insert and probe counts.

    Unlike `to_multiple_of_batch` it always adds between 1 and a whole batch:
    it returns the least multiple of the batch size strictly above its input,
    so an input that is already a whole number of batches grows by one more
    batch. Its comment speaks of a multiple of the desired size; the code
    rounds to a multiple of the batch size, and so does this model. The batch
    size is a global constant of the benchmark, taken here as a parameter.
    The module is named after benchmark.cc, where the function is global. */
module Benchmark {
  import Arithmetic
  import opened BenchmarkUtil

  /** The next multiple of the batch size above `desiredSize` fits in a `uint64_t`. */
  predicate NextMultipleFits(desiredSize: U64, batchSize: U64)
    requires batchSize > 0
  {
    desiredSize + (batchSize - desiredSize % batchSize) < U64Modulus
  }

  function RoundToAppropriateSize(desiredSize: U64, batchSize: U64): (r: U64)
    requires batchSize > 0
    ensures NextMultipleFits(desiredSize, batchSize) ==>
              r % batchSize == 0 && desiredSize < r <= desiredSize + batchSize
    ensures !NextMultipleFits(desiredSize, batchSize) ==> r < desiredSize
  {
    var gap := batchSize - desiredSize % batchSize;
    assert desiredSize + gap == (desiredSize / batchSize + 1) * batchSize;
    Arithmetic.MultipleDivides(desiredSize / batchSize + 1, batchSize);
    Wrap(desiredSize + gap)
  }

  /** An input that is already a whole number of batches gains a full batch
      instead of being returned unchanged. */
  lemma MultipleGainsFullBatch(desiredSize: U64, batchSize: U64)
    requires batchSize > 0 && desiredSize % batchSize == 0
    requires desiredSize + batchSize < U64Modulus
    ensures RoundToAppropriateSize(desiredSize, batchSize) == desiredSize + batchSize
  {
  }

  /** The result is the least multiple of the batch size strictly above the
      input, i.e. `to_multiple_of_batch(desired_size + 1, batch_size)`. */
  lemma RoundsToNextMultipleAbove(desiredSize: U64, batchSize: U64)
    requires batchSize > 0 && desiredSize + batchSize < U64Modulus
    ensures RoundToAppropriateSize(desiredSize, batchSize)
            == ToMultipleOfBatch(desiredSize + 1, batchSize)
  {
    Arithmetic.MultiplesInWindowAreEqual(RoundToAppropriateSize(desiredSize, batchSize),
                                         ToMultipleOfBatch(desiredSize + 1, batchSize),
                                         desiredSize + 1, batchSize);
  }

  /** The two rounding helpers agree except on exact multiples, where this
      one adds a whole batch and `to_multiple_of_batch` adds nothing. */
  lemma RoundingHelpersCompared(desiredSize: U64, batchSize: U64)
    requires batchSize > 0 && desiredSize + batchSize < U64Modulus
    ensures desiredSize % batchSize == 0 ==>
              ToMultipleOfBatch(desiredSize, batchSize) == desiredSize
              && RoundToAppropriateSize(desiredSize, batchSize) == desiredSize + batchSize
    ensures desiredSize % batchSize != 0 ==>
              RoundToAppropriateSize(desiredSize, batchSize) == ToMultipleOfBatch(desiredSize, batchSize)
  {
    if desiredSize % batchSize == 0 {
      ToMultipleOfBatchFixesMultiples(desiredSize, batchSize);
    } else {
      Arithmetic.MultiplesInWindowAreEqual(RoundToAppropriateSize(desiredSize, batchSize),
                                           ToMultipleOfBatch(desiredSize, batchSize),
                                           desiredSize, batchSize);
    }
  }

  /** Rounding twice adds a further whole batch: the helper is not idempotent. */
  lemma RoundTwiceAddsBatch(desiredSize: U64, batchSize: U64)
    requires batchSize > 0
    requires NextMultipleFits(desiredSize, batchSize)
    requires RoundToAppropriateSize(desiredSize, batchSize) + batchSize < U64Modulus
    ensures RoundToAppropriateSize(RoundToAppropriateSize(desiredSize, batchSize), batchSize)
            == RoundToAppropriateSize(desiredSize, batchSize) + batchSize
  {
    MultipleGainsFullBatch(RoundToAppropriateSize(desiredSize, batchSize), batchSize);
  }

  /** At the top of the range the sum wraps: the largest `uint64_t` rounds
      to 0 with a batch size of 2. */
  lemma RoundWrapsAtTop()
    ensures RoundToAppropriateSize(U64Modulus - 1, 2) == 0
  {
  }
}
