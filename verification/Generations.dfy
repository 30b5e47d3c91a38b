/** Wrapping key generations and the nonces built from them: the arithmetic shared by the sender
    (`encryptor.cpp`) and the receiver (`cryptor_manager.cpp`). */
module Generations {
  import opened Bits

  const SHIFT := 24           // kRatchetGenerationShiftBits
  const WRAP := 256           // kGenerationWrap
  const PER_GENERATION := 0x100_0000
  const WORD := 0x1_0000_0000 // 32-bit arithmetic wraps here

  lemma ShiftIsPower()
    ensures Pow2(SHIFT) == PER_GENERATION
  {
    assert Pow2(8) == 256;
    Pow2Add(8, 8);
    Pow2Add(16, 8);
  }

  /** The truncated generation in the top byte of a 32-bit nonce. */
  function TopByte(truncatedNonce: nat): (g: nat)
    ensures g == truncatedNonce / PER_GENERATION
  {
    ShrIsQuotient(truncatedNonce, SHIFT);
    ShiftIsPower();
    Shr(truncatedNonce, SHIFT)
  }

  /** `ComputeWrappedGeneration`, in the 32-bit arithmetic of the source. */
  function ComputeWrappedGeneration(oldest: nat, generation: nat): nat {
    var remainder := oldest % WRAP;
    var factor := oldest / WRAP + if generation < remainder then 1 else 0;
    (factor * WRAP + generation) % WORD
  }

  /** A truncated generation expands to the one generation it stands for at or after `oldest` and
      less than a full wrap later; for any other generation the expansion is wrong. */
  lemma WrappedGenerationIff(oldest: nat, generation: nat)
    requires generation < WORD && oldest + WRAP <= WORD
    ensures ComputeWrappedGeneration(oldest, generation % WRAP) == generation <==>
      oldest <= generation < oldest + WRAP
  {
    var q, r, g, m := oldest / WRAP, oldest % WRAP, generation / WRAP, generation % WRAP;
    assert oldest == WRAP * q + r && generation == WRAP * g + m;
    var wide := (q + if m < r then 1 else 0) * WRAP + m;
    assert oldest <= wide < oldest + WRAP;
    assert wide % WORD == wide;
  }

  lemma WrappedGenerationExact(oldest: nat, generation: nat)
    requires oldest <= generation < oldest + WRAP && generation < WORD
    ensures ComputeWrappedGeneration(oldest, generation % WRAP) == generation
  {
    var q, r, g, m := oldest / WRAP, oldest % WRAP, generation / WRAP, generation % WRAP;
    assert oldest == WRAP * q + r && generation == WRAP * g + m;
    assert (q + if m < r then 1 else 0) * WRAP + m == generation;
  }

  /** `ComputeWrappedBigNonce`: generation bits above the low 24 bits of the truncated nonce. */
  function ComputeWrappedBigNonce(generation: nat, truncatedNonce: nat): (n: nat)
    ensures n == generation * PER_GENERATION + truncatedNonce % PER_GENERATION
  {
    BigNonceIsSum(generation, truncatedNonce);
    var masked := And(truncatedNonce, Shl(1, SHIFT) - 1);
    Or(Shl(generation, SHIFT), masked)
  }

  lemma BigNonceIsSum(generation: nat, truncatedNonce: nat)
    ensures Shl(1, SHIFT) == PER_GENERATION
    ensures Or(Shl(generation, SHIFT), And(truncatedNonce, Shl(1, SHIFT) - 1)) ==
      generation * PER_GENERATION + truncatedNonce % PER_GENERATION
  {
    ShiftIsPower();
    ShlIsProduct(1, SHIFT);
    AndMask(truncatedNonce, SHIFT);
    var low := truncatedNonce % PER_GENERATION;
    OrDisjoint(low, generation, SHIFT);
    OrComm(Shl(generation, SHIFT), low);
  }

  /** The receiver's view of the nonce `k mod 2^32` is the sender's counter `k` exactly when its
      generation is at or after the oldest one and less than a full wrap later. */
  lemma BigNonceRecoversCounter(oldest: nat, k: nat)
    requires k / PER_GENERATION < WORD && oldest + WRAP <= WORD
    ensures ComputeWrappedBigNonce(ComputeWrappedGeneration(oldest, TopByte(k % WORD)), k % WORD) == k <==>
      oldest <= k / PER_GENERATION < oldest + WRAP
    ensures TopByte(k % WORD) == (k / PER_GENERATION) % WRAP
  {
    hide ComputeWrappedGeneration, ComputeWrappedBigNonce, TopByte;
    TruncatedParts(k);
    WrappedGenerationIff(oldest, k / PER_GENERATION);
    var g := ComputeWrappedGeneration(oldest, (k / PER_GENERATION) % WRAP);
    assert k == (k / PER_GENERATION) * PER_GENERATION + k % PER_GENERATION;
  }

  lemma TruncatedParts(k: nat)
    ensures (k % WORD) / PER_GENERATION == (k / PER_GENERATION) % WRAP
    ensures (k % WORD) % PER_GENERATION == k % PER_GENERATION
  {
    var g, low := k / PER_GENERATION, k % PER_GENERATION;
    var q, m := g / WRAP, g % WRAP;
    assert k == PER_GENERATION * g + low && g == WRAP * q + m;
    DivUnique(k, WORD, q, PER_GENERATION * m + low);
    DivUnique(k % WORD, PER_GENERATION, m, low);
  }

  /** Two frames never share both the key generation and the nonce, although the nonce wraps. */
  lemma PairsDiffer(j: nat, k: nat)
    requires j != k
    ensures (j / PER_GENERATION, j % WORD) != (k / PER_GENERATION, k % WORD)
  {
    TruncatedParts(j);
    TruncatedParts(k);
  }
}
