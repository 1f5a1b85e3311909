# Morton filter block-layout calculator, in Dafny

This project models the arithmetic core of the Morton filter repository
(a compressed cuckoo-filter variant):

- the **block-layout calculator** `calculate_slot_compression_ratio_and_other_params`
  with its helpers `log2ceil` and `int_ceil` (module `CompressionRatio`,
  `calculate_compression_ratio.dfy`). A block of `block_size_bits` bits holds
  one fullness counter per bucket, as many fingerprints as fit, and an
  overflow-tracking array (OTA) that receives the padding. The calculator
  derives the fullness-counter width, the fullness-counter array length, the
  fingerprint count, the OTA bits after padding and the slot compression
  ratio C;
- the benchmark helper `to_multiple_of_batch` (module `BenchmarkUtil`,
  `benchmark_util.dfy`), which rounds a count up to a whole number of batches
  in `uint64_t` arithmetic;
- the benchmark's `round_to_appropriate_size` (module `Benchmark`,
  `benchmark.dfy`), which returns the next multiple of the batch size strictly
  above its input;
- the test helper `Test::pass` (module `Test`, `test_util.dfy`).

Each Dafny module is named after the file it models (the C++ namespace
`Benchmark` of benchmark_util.h holds `to_multiple_of_batch`; the module
`Benchmark` here holds benchmark.cc's global `round_to_appropriate_size`).
Module `Arithmetic` (`arithmetic.dfy`) holds the facts about multiplication,
multiples and real quotients that the proofs share.

Modelling choices:

- The calculator is Python 2, so `available_bits / fingerprint_len_bits` is
  integer floor division and the fingerprint count stays an integer.
  `FloorDiv` writes it out for both signs of the divisor (Dafny's own `/` is
  Euclidean and agrees with floor division only for a positive divisor).
- The calculator validates nothing and raises only what Python raises:
  `math.log` of a non-positive number (`MathDomainError`), integer division by
  a zero fingerprint length (`IntegerDivisionByZero`) and float division by a
  zero naive slot count (`FloatDivisionByZero`), in that order. Over-committed
  blocks are not rejected; they give a negative fingerprint count.
- `log2ceil` is modelled by its exact meaning, the least `w` with
  `2^w >= n`; the ratio is an exact `real` quotient.
- `uint64_t` is the subset type `U64`; the wrap-around of
  `number + batch_size - 1` and of `desired_size + (batch_size - ...)` is
  written out with `Wrap`, and the properties are stated under explicit
  no-wrap conditions, with lemmas that exhibit what happens at the top of the
  range.
- `batch_size` in `round_to_appropriate_size` is a global constant of the
  benchmark defined outside the modelled files; it is a parameter here, and
  both rounding helpers require it to be positive (C++ division by zero is
  undefined).
- The comment on `round_to_appropriate_size` speaks of a multiple of
  `desired_size`; the code rounds to a multiple of `batch_size`, and so does
  the model.
- Every member is a Dafny function, so repeated calls with equal arguments give
  equal results by construction; no separate lemma states this.

## Model

| member | source | states |
|---|---|---|
| `CompressionRatio.CeilLog2` | calculate_compression_ratio.py:58-59 | for n >= 1, 2^w >= n and 2^(w-1) < n (w is the ceiling of log2 n) |
| `CompressionRatio.CeilLog2IsLeast` | calculate_compression_ratio.py:58-59 | the computed width is the least w with 2^w >= n |
| `CompressionRatio.Log2Ceil` | calculate_compression_ratio.py:55-59 | fails with the math domain error exactly when n <= 0; otherwise returns the least w with 2^w >= n |
| `CompressionRatio.Log2CeilExamples` | calculate_compression_ratio.py:58-59 | log2ceil of 1, 2, 3, 4, 5 is 0, 1, 2, 2, 3, and of 0 is a domain error (so 1 slot needs a 1-bit counter, 2 slots a 2-bit one) |
| `CompressionRatio.IntCeil` | calculate_compression_ratio.py:52-53 | the result r is the least integer with x <= r, i.e. x <= r < x + 1 |
| `CompressionRatio.IntCeilOfInteger` | calculate_compression_ratio.py:52-53 | int_ceil of an integer is that integer |
| `CompressionRatio.FloorDiv` | calculate_compression_ratio.py:66 | Python 2 int division: q*b <= a < q*b + b for b > 0, and q*b + b < a <= q*b for b < 0 |
| `CompressionRatio.FloorDivMonotone` | calculate_compression_ratio.py:66 | with a positive divisor, floor division is monotone in the dividend |
| `CompressionRatio.Calculate` | calculate_compression_ratio.py:61-78 | errors exactly when slots + 1 <= 0 (domain), fingerprint length 0 (int division) or buckets * slots = 0 (float division), in that order; otherwise the counter width is the least w with 2^w >= slots + 1, the array length is width * buckets, the target OTA is echoed, counters + fingerprints + OTA bits fill the block exactly, the OTA grows by padding by less than one fingerprint (target <= ota < target + len for len > 0, mirrored for len < 0), and C * (buckets * slots) = fingerprint count |
| `CompressionRatio.MaxFingerprintsIsLargestFit` | calculate_compression_ratio.py:65-66 | for a positive fingerprint length, k fingerprints fit beside the counters and the target OTA exactly when k <= the computed count |
| `CompressionRatio.MaxFingerprintsMonotoneInTargetOta` | calculate_compression_ratio.py:65-66 | everything else fixed, a longer target OTA never gives more fingerprints |
| `CompressionRatio.RatioAtMostOneIff` | calculate_compression_ratio.py:71-72 | with a positive naive slot count, C <= 1 iff the fingerprint count is <= buckets * slots, and C >= 0 iff the count is >= 0 |
| `CompressionRatio.OvercommittedBlockGivesNegativeCount` | calculate_compression_ratio.py:65-66 | when target OTA + counter array exceed the block, the call still succeeds, with a negative fingerprint count |
| `CompressionRatio.WorkedExample` | calculate_compression_ratio.py:82-87 | inputs (64, 2, 8, 16, 512) give width 2, array 128, 46 fingerprints, 16 OTA bits, target 16 and C = 46/128 = 0.359375 |
| `BenchmarkUtil.Wrap` | benchmarking/benchmark_util.h:56 | uint64 arithmetic: values in range are kept, values up to 2^65 lose 2^64 |
| `BenchmarkUtil.ToMultipleOfBatch` | benchmarking/benchmark_util.h:55-57 | the result is always a multiple of the batch size; without wrap it lies in [number, number + batch); when the sum wraps it falls below the input |
| `BenchmarkUtil.ToMultipleOfBatchIsLeast` | benchmarking/benchmark_util.h:56 | without wrap, the result is <= every multiple of the batch size that is >= number (the least such multiple) |
| `BenchmarkUtil.ToMultipleOfBatchFixesMultiples` | benchmarking/benchmark_util.h:56 | without wrap, a multiple of the batch size (0 included) maps to itself |
| `BenchmarkUtil.ToMultipleOfBatchIdempotent` | benchmarking/benchmark_util.h:56 | rounding the result again gives the same result, when that second sum does not wrap |
| `BenchmarkUtil.ToMultipleOfBatchWrapsAtTop` | benchmarking/benchmark_util.h:56 | 2^64 - 3 rounds to 2^64 - 1 with batch 3, and 2^64 - 1 rounds to 0: idempotence and "result >= input" fail at the top of the range |
| `BenchmarkUtil.ToMultipleOfBatchMonotone` | benchmarking/benchmark_util.h:56 | without wrap, a <= b implies f(a) <= f(b) |
| `BenchmarkUtil.ToMultipleOfBatchIsCeilingOfQuotient` | benchmarking/benchmark_util.h:56 | without wrap, result / batch is the ceiling of the exact real quotient number / batch: q - 1 < number / batch <= q |
| `Benchmark.RoundToAppropriateSize` | benchmarking/benchmark.cc:46-48 | when the next multiple fits in 64 bits, the result is a multiple of the batch size with desired < r <= desired + batch; otherwise it wraps below the input |
| `Benchmark.MultipleGainsFullBatch` | benchmarking/benchmark.cc:47 | an input that is already a multiple of the batch size gives input + batch, not the input |
| `Benchmark.RoundsToNextMultipleAbove` | benchmarking/benchmark.cc:46-48 | the result equals to_multiple_of_batch(desired + 1, batch), the least multiple strictly above the input |
| `Benchmark.RoundingHelpersCompared` | benchmarking/benchmark.cc:46-48 | the two rounding helpers agree on non-multiples; on multiples to_multiple_of_batch returns the input and this helper the input + batch |
| `Benchmark.RoundTwiceAddsBatch` | benchmarking/benchmark.cc:47 | applying the helper twice adds another whole batch, so it is not idempotent |
| `Benchmark.RoundWrapsAtTop` | benchmarking/benchmark.cc:47 | the largest uint64 value rounds to 0 with batch size 2 |
| `Test.Pass` | test_util.h:41-43 | the verdict is "SUCCESS" exactly for true and "FAILURE" exactly for false |
| `Test.PassInjective` | test_util.h:42 | equal verdicts come from equal statuses |

## Left out

- The floating-point internals of `log2`/`log2ceil`: `math.log(n, 2)` can round up past an exact power of two for large `n`, which would make `log2ceil` one too large; the model uses the exact ceiling logarithm.
- Floating-point rounding of the slot compression ratio, and the `OverflowError` that `float()` raises for integers beyond the double range; the ratio is an exact rational.
- `int_ceil` on NaN or infinite floats (it raises there); the model takes any exact real.
- CompressionRatio.IntCeilOfInteger: in the source `math.ceil` first converts an integer argument to a double, so integers above 2^53 in magnitude are rounded (`int_ceil(2**53 + 1)` gives `2**53`) and integers beyond the double range raise `OverflowError`; the model takes the exact value. The calculator never calls `int_ceil`.
- Non-integer arguments to the calculator: all five parameters are modelled as integers, as the script passes them.
- The `__main__` print loop (dictionary iteration order, standard output); only its parameter set is modelled, in `WorkedExample`.
- CompressionRatio.MaxFingerprintsMonotoneInTargetOta: proved only for a positive fingerprint length; with a negative length floor division reverses the order and the count grows with the target OTA.
- The benchmark drivers (`benchmark()` and `main` in benchmark.cc, benchmark_cf.cc, benchmark_ss_cf.cc, measure_bucket_accesses.cc, the `benchmark_*` templates in benchmark_mf.h and benchmark_cf.h): wall-clock timing, console output and calls into filter classes whose source is not part of this model.
- `calculate_mf_false_positive_ratio`: floating-point `pow` numerics.
- `populate_with_random_numbers` and `RN_Gen`: they depend on `std::default_random_engine` and random sampling.
- `set_region_name`: stringstream formatting of doubles.
- `now()`: the system clock.
- benchmark_common.h: only a global tuning constant (`slot_fraction`), no logic.
- The conversion of `double` arguments to `uint64_t` at the rounding helpers' call sites (`total_phys_slots * block_saturation`); the helpers are modelled on `uint64_t` inputs.
