/** The block-layout calculator of a Morton filter.

    A Morton filter block of `blockSizeBits` bits holds one fullness counter
    per bucket (the fullness-counter array), as many fingerprints as fit, and
    an overflow-tracking array (OTA) that receives whatever is left over.
    Given the buckets per block, the slots per bucket, the fingerprint length
    and a target OTA length, the calculator derives the block layout and the
    slot compression ratio C (fingerprints that fit / slots a naive layout
    would hold).

    The source runs under Python 2: `/` on two ints is floor division, which
    `FloorDiv` writes out for both signs of the divisor. The ratio is computed
    there in floating point; here it is the exact rational quotient. */
module CompressionRatio {
  import Arithmetic

  /** The block size used when the caller gives none: one 512-bit cache line. */
  const DefaultBlockSizeBits: int := 512

  /** The exceptions Python raises on the calculator's path. */
  datatype PyError =
    | MathDomainError        // math.log of a non-positive number (ValueError)
    | IntegerDivisionByZero  // int / 0, when the fingerprint length is 0
    | FloatDivisionByZero    // x / float(0), when buckets * slots is 0

  datatype Result<T> = Ok(value: T) | Err(error: PyError)

  /** The dictionary the calculator returns, one field per key. */
  datatype LayoutParams = LayoutParams(
    slotCompressionRatio: real,
    maxFingerprintsPerBlock: int,
    fullnessCounterWidth: nat,
    fullnessCounterArrayLen: int,
    targetOtaLen: int,
    availableBitsForOta: int)

  function Pow2(w: nat): nat
  {
    if w == 0 then 1 else 2 * Pow2(w - 1)
  }

  lemma {:induction false} Pow2Monotone(v: nat, w: nat)
    requires v <= w
    ensures Pow2(v) <= Pow2(w)
    decreases w
  {
    if v < w {
      Pow2Monotone(v, w - 1);
    }
  }

  /** `w` is the ceiling of the base-2 logarithm of `n`: the least `w` with 2^w >= n. */
  ghost predicate IsCeilLog2(n: int, w: nat) {
    Pow2(w) >= n && forall v: nat :: Pow2(v) >= n ==> w <= v
  }

  /** The exact ceiling of log2(n), computed by halving `n` rounded up. */
  function CeilLog2(n: int): (w: nat)
    requires n >= 1
    ensures Pow2(w) >= n
    ensures w == 0 || Pow2(w - 1) < n
    decreases n
  {
    if n == 1 then 0 else 1 + CeilLog2((n + 1) / 2)
  }

  lemma CeilLog2IsLeast(n: int)
    requires n >= 1
    ensures IsCeilLog2(n, CeilLog2(n))
  {
    var w := CeilLog2(n);
    forall v: nat | Pow2(v) >= n
      ensures w <= v
    {
      if v < w {
        Pow2Monotone(v, w - 1);
      }
    }
  }

  /** `log2ceil`: the ceiling of log2(n), or the domain error `math.log`
      raises for a non-positive argument. */
  function Log2Ceil(n: int): (r: Result<nat>)
    ensures r.Err? <==> n <= 0
    ensures r.Err? ==> r.error == MathDomainError
    ensures r.Ok? ==> IsCeilLog2(n, r.value)
  {
    if n <= 0 then Err(MathDomainError)
    else
      CeilLog2IsLeast(n);
      Ok(CeilLog2(n))
  }

  lemma Log2CeilExamples()
    ensures Log2Ceil(1) == Ok(0)
    ensures Log2Ceil(2) == Ok(1)
    ensures Log2Ceil(3) == Ok(2)
    ensures Log2Ceil(4) == Ok(2)
    ensures Log2Ceil(5) == Ok(3)
    ensures Log2Ceil(0) == Err(MathDomainError)
  {
  }

  /** `int_ceil`: the least integer not below `x`. */
  function IntCeil(x: real): (r: int)
    ensures x <= r as real < x + 1.0
  {
    -((-x).Floor)
  }

  lemma IntCeilOfInteger(n: int)
    ensures IntCeil(n as real) == n
  {
  }

  /** Python's `/` on two ints (Python 2) or `//`: the quotient rounded
      towards minus infinity, for either sign of the divisor. */
  function FloorDiv(a: int, b: int): (q: int)
    requires b != 0
    ensures b > 0 ==> q * b <= a < q * b + b
    ensures b < 0 ==> q * b + b < a <= q * b
  {
    if b > 0 then a / b else (-a) / (-b)
  }

  lemma FloorDivMonotone(a1: int, a2: int, b: int)
    requires b > 0 && a1 <= a2
    ensures FloorDiv(a1, b) <= FloorDiv(a2, b)
  {
    var q1, q2 := FloorDiv(a1, b), FloorDiv(a2, b);
    assert q1 * b < (q2 + 1) * b;
    Arithmetic.MulOrder(q1, q2 + 1, b);
  }

  /** Every bit of the block goes to the counters, the fingerprints or the OTA. */
  predicate BlockAccountedFor(p: LayoutParams, fingerprintLenBits: int, blockSizeBits: int) {
    p.fullnessCounterArrayLen + p.maxFingerprintsPerBlock * fingerprintLenBits
      + p.availableBitsForOta == blockSizeBits
  }

  /** `calculate_slot_compression_ratio_and_other_params`. */
  function Calculate(bucketsPerBlock: int, slotsPerBucket: int, fingerprintLenBits: int,
                     targetOtaLen: int, blockSizeBits: int): (r: Result<LayoutParams>)
    ensures r.Err? <==> slotsPerBucket + 1 <= 0 || fingerprintLenBits == 0
                        || bucketsPerBlock * slotsPerBucket == 0
    ensures slotsPerBucket + 1 <= 0 ==> r == Err(MathDomainError)
    ensures slotsPerBucket + 1 > 0 && fingerprintLenBits == 0 ==> r == Err(IntegerDivisionByZero)
    ensures slotsPerBucket + 1 > 0 && fingerprintLenBits != 0 && bucketsPerBlock * slotsPerBucket == 0
            ==> r == Err(FloatDivisionByZero)
    ensures r.Ok? ==> IsCeilLog2(slotsPerBucket + 1, r.value.fullnessCounterWidth)
    ensures r.Ok? ==> r.value.fullnessCounterArrayLen == r.value.fullnessCounterWidth * bucketsPerBlock
    ensures r.Ok? ==> r.value.targetOtaLen == targetOtaLen
    ensures r.Ok? ==> BlockAccountedFor(r.value, fingerprintLenBits, blockSizeBits)
    ensures r.Ok? && fingerprintLenBits > 0 ==>
              targetOtaLen <= r.value.availableBitsForOta < targetOtaLen + fingerprintLenBits
    ensures r.Ok? && fingerprintLenBits < 0 ==>
              targetOtaLen + fingerprintLenBits < r.value.availableBitsForOta <= targetOtaLen
    ensures r.Ok? ==> r.value.slotCompressionRatio * (bucketsPerBlock * slotsPerBucket) as real
                      == r.value.maxFingerprintsPerBlock as real
  {
    match Log2Ceil(slotsPerBucket + 1)
    case Err(e) => Err(e)
    case Ok(width) =>
      var arrayLen := width * bucketsPerBlock;
      var availableBits := blockSizeBits - targetOtaLen - arrayLen;
      if fingerprintLenBits == 0 then Err(IntegerDivisionByZero)
      else
        var maxFingerprints := FloorDiv(availableBits, fingerprintLenBits);
        // Pad the block: whatever the fingerprints do not use goes to the OTA.
        var otaBits := blockSizeBits - arrayLen - maxFingerprints * fingerprintLenBits;
        var naiveSlots := bucketsPerBlock * slotsPerBucket;
        if naiveSlots == 0 then Err(FloatDivisionByZero)
        else
          Ok(LayoutParams(maxFingerprints as real / naiveSlots as real, maxFingerprints,
                          width, arrayLen, targetOtaLen, otaBits))
  }

  /** The fingerprint count is the largest that fits beside the counters and
      the target OTA. */
  lemma MaxFingerprintsIsLargestFit(bucketsPerBlock: int, slotsPerBucket: int,
                                    fingerprintLenBits: int, targetOtaLen: int,
                                    blockSizeBits: int, k: int)
    requires fingerprintLenBits > 0
    requires Calculate(bucketsPerBlock, slotsPerBucket, fingerprintLenBits,
                       targetOtaLen, blockSizeBits).Ok?
    ensures var p := Calculate(bucketsPerBlock, slotsPerBucket, fingerprintLenBits,
                               targetOtaLen, blockSizeBits).value;
            p.fullnessCounterArrayLen + k * fingerprintLenBits + targetOtaLen <= blockSizeBits
            <==> k <= p.maxFingerprintsPerBlock
  {
    var p := Calculate(bucketsPerBlock, slotsPerBucket, fingerprintLenBits,
                       targetOtaLen, blockSizeBits).value;
    var available := blockSizeBits - targetOtaLen - p.fullnessCounterArrayLen;
    var m := p.maxFingerprintsPerBlock;
    assert m * fingerprintLenBits <= available < (m + 1) * fingerprintLenBits;
    Arithmetic.MulOrder(k, m, fingerprintLenBits);
    Arithmetic.MulOrder(m + 1, k, fingerprintLenBits);
  }

  /** Holding everything else fixed, a longer target OTA never leaves room
      for more fingerprints. */
  lemma MaxFingerprintsMonotoneInTargetOta(bucketsPerBlock: int, slotsPerBucket: int,
                                           fingerprintLenBits: int, shorterOta: int,
                                           longerOta: int, blockSizeBits: int)
    requires fingerprintLenBits > 0 && shorterOta <= longerOta
    requires Calculate(bucketsPerBlock, slotsPerBucket, fingerprintLenBits,
                       shorterOta, blockSizeBits).Ok?
    ensures Calculate(bucketsPerBlock, slotsPerBucket, fingerprintLenBits,
                      longerOta, blockSizeBits).Ok?
    ensures Calculate(bucketsPerBlock, slotsPerBucket, fingerprintLenBits,
                      longerOta, blockSizeBits).value.maxFingerprintsPerBlock
            <= Calculate(bucketsPerBlock, slotsPerBucket, fingerprintLenBits,
                         shorterOta, blockSizeBits).value.maxFingerprintsPerBlock
  {
    var width := CeilLog2(slotsPerBucket + 1);
    var arrayLen := width * bucketsPerBlock;
    FloorDivMonotone(blockSizeBits - longerOta - arrayLen,
                     blockSizeBits - shorterOta - arrayLen, fingerprintLenBits);
  }

  /** With a positive naive slot count, C <= 1 exactly when no more
      fingerprints fit than the naive layout has slots, and C >= 0 exactly
      when the fingerprint count is not negative. */
  lemma RatioAtMostOneIff(bucketsPerBlock: int, slotsPerBucket: int,
                          fingerprintLenBits: int, targetOtaLen: int, blockSizeBits: int)
    requires bucketsPerBlock * slotsPerBucket > 0
    requires Calculate(bucketsPerBlock, slotsPerBucket, fingerprintLenBits,
                       targetOtaLen, blockSizeBits).Ok?
    ensures var p := Calculate(bucketsPerBlock, slotsPerBucket, fingerprintLenBits,
                               targetOtaLen, blockSizeBits).value;
            (p.slotCompressionRatio <= 1.0 <==> p.maxFingerprintsPerBlock <= bucketsPerBlock * slotsPerBucket)
            && (p.slotCompressionRatio >= 0.0 <==> p.maxFingerprintsPerBlock >= 0)
  {
    var p := Calculate(bucketsPerBlock, slotsPerBucket, fingerprintLenBits,
                       targetOtaLen, blockSizeBits).value;
    Arithmetic.QuotientBounds(p.slotCompressionRatio, p.maxFingerprintsPerBlock as real,
                              (bucketsPerBlock * slotsPerBucket) as real);
  }

  /** Nothing is validated: a block over-committed by the counters and the
      target OTA still yields a result, with a negative fingerprint count. */
  lemma OvercommittedBlockGivesNegativeCount(bucketsPerBlock: int, slotsPerBucket: int,
                                             fingerprintLenBits: int, targetOtaLen: int,
                                             blockSizeBits: int)
    requires slotsPerBucket >= 0 && fingerprintLenBits > 0
    requires bucketsPerBlock * slotsPerBucket != 0
    requires targetOtaLen + CeilLog2(slotsPerBucket + 1) * bucketsPerBlock > blockSizeBits
    ensures Calculate(bucketsPerBlock, slotsPerBucket, fingerprintLenBits,
                      targetOtaLen, blockSizeBits).Ok?
    ensures Calculate(bucketsPerBlock, slotsPerBucket, fingerprintLenBits,
                      targetOtaLen, blockSizeBits).value.maxFingerprintsPerBlock < 0
  {
    var p := Calculate(bucketsPerBlock, slotsPerBucket, fingerprintLenBits,
                       targetOtaLen, blockSizeBits).value;
    var available := blockSizeBits - targetOtaLen - p.fullnessCounterArrayLen;
    assert p.maxFingerprintsPerBlock * fingerprintLenBits <= available < 0;
    Arithmetic.MulOrder(0, p.maxFingerprintsPerBlock, fingerprintLenBits);
  }

  /** The script's own invocation: 64 buckets of 2 slots, 8-bit fingerprints,
      a 16-bit target OTA in a 512-bit block. */
  lemma WorkedExample()
    ensures Calculate(64, 2, 8, 16, DefaultBlockSizeBits)
            == Ok(LayoutParams(0.359375, 46, 2, 128, 16, 16))
  {
    assert Log2Ceil(3) == Ok(2);
  }
}
