/** Compact targets (developer reference, section "Target nBits") and difficulties. */
module Target {
  import opened Arithmetic
  import opened HexBytes
  import opened Results

  const DIFF1_TARGET: nat := 0xffff_0000_0000_0000_0000_0000_0000_0000_0000_0000_0000_0000_0000_0000

  datatype TargetError = NegativeExponent | ZeroTarget

  function Exponent(bits: U32): int {
    bits / 0x100_0000 - 3
  }

  function Mantissa(bits: U32): (m: nat)
    ensures m < 0x100_0000
  {
    bits % 0x100_0000
  }

  /** Raising to a negative power throws. */
  function BitsToTarget(bits: U32): Result<nat, TargetError> {
    if Exponent(bits) < 0 then Err(NegativeExponent)
    else Ok(Mantissa(bits) * Pow256(Exponent(bits)))
  }

  /** Dividing by zero throws. */
  function TargetToDifficulty(target: nat): Result<nat, TargetError> {
    if target == 0 then Err(ZeroTarget) else Ok(DIFF1_TARGET / target)
  }

  /**
   Bits whose mantissa has no leading zero byte and whose exponent byte leaves room for the mantissa. Without
   this the order below fails (`DenormalizedBitsBreakOrder`).
   */
  predicate Normalized(bits: U32) {
    0x1_0000 <= Mantissa(bits) && 0 <= Exponent(bits)
  }

  lemma LargerExponentWins(b1: U32, b2: U32)
    requires Normalized(b1) && Normalized(b2) && Exponent(b1) < Exponent(b2)
    ensures BitsToTarget(b1).value < BitsToTarget(b2).value
  {
    var low, high := Pow256(Exponent(b1)), Pow256(Exponent(b2));
    Pow256Step(Exponent(b1), Exponent(b2));
    MulLess(Mantissa(b1), 0x100_0000, low);
    MulLessEq(0x1_0000, Mantissa(b2), high);
  }

  /** On normalized bits, comparing the 4-byte numbers is comparing the targets. */
  lemma BitsOrderIsTargetOrder(b1: U32, b2: U32)
    requires Normalized(b1) && Normalized(b2)
    ensures BitsToTarget(b1).value < BitsToTarget(b2).value <==> b1 < b2
    ensures BitsToTarget(b1).value == BitsToTarget(b2).value <==> b1 == b2
  {
    if Exponent(b1) < Exponent(b2) {
      LargerExponentWins(b1, b2);
    } else if Exponent(b2) < Exponent(b1) {
      LargerExponentWins(b2, b1);
    } else if Mantissa(b1) < Mantissa(b2) {
      MulLess(Mantissa(b1), Mantissa(b2), Pow256(Exponent(b1)));
    } else if Mantissa(b2) < Mantissa(b1) {
      MulLess(Mantissa(b2), Mantissa(b1), Pow256(Exponent(b1)));
    }
  }

  /** Without normalization the larger number can be the smaller target. */
  lemma DenormalizedBitsBreakOrder()
    ensures BitsToTarget(0x0400_0001).value < BitsToTarget(0x03ff_ffff).value
  {
    assert Pow256(0) == 1 && Pow256(1) == 256 * Pow256(0);
    assert Exponent(0x0400_0001) == 1 && Exponent(0x03ff_ffff) == 0;
  }

  lemma KnownPowers()
    ensures Pow256(24) == 0x1_0000_0000_0000_0000_0000_0000_0000_0000_0000_0000_0000_0000
    ensures Pow256(26) == 0x1_0000_0000_0000_0000_0000_0000_0000_0000_0000_0000_0000_0000_0000
  {
    assert Pow256(2) == 0x1_0000 && Pow256(3) == 0x100_0000;
    Pow256Sum(3, 3);
    Pow256Sum(6, 6);
    Pow256Sum(12, 12);
    Pow256Sum(24, 2);
  }

  /**
   The smallest difficulty, and the example that the source gives: its target is the number written there, and
   its difficulty is rounded down.
   */
  lemma KnownTargets()
    ensures BitsToTarget(0x1d00_ffff) == Ok(0xffff * Pow256(26))
    ensures TargetToDifficulty(0xffff * Pow256(26)) == Ok(1)
    ensures BitsToTarget(0x1b04_04cb) == Ok(1653206561150525499452195696179626311675293455763937233695932416)
    ensures TargetToDifficulty(1653206561150525499452195696179626311675293455763937233695932416) == Ok(16307)
    ensures BitsToTarget(0x02ff_ffff) == Err(NegativeExponent) && TargetToDifficulty(0) == Err(ZeroTarget)
  {
    KnownPowers();
  }

  lemma Difficulty1()
    ensures DIFF1_TARGET == 0xffff * Pow256(26)
  {
    hide Pow256;
    KnownPowers();
  }

  /** A larger target is never more difficult. */
  lemma DifficultyIsAntitone(t1: nat, t2: nat)
    requires 0 < t1 <= t2
    ensures TargetToDifficulty(t2).value <= TargetToDifficulty(t1).value
  {
    var d1, d2 := DIFF1_TARGET / t1, DIFF1_TARGET / t2;
    DivisionBounds(DIFF1_TARGET, t1);
    DivisionBounds(DIFF1_TARGET, t2);
    MulLessEq(t1, t2, d2);
    MulCancel(d2, d1 + 1, t1);
  }

  /** A hash at most its target carries at least the work its difficulty names. */
  lemma WorkBound(hash: nat, target: nat)
    requires 0 < target && hash <= target
    ensures hash * TargetToDifficulty(target).value <= DIFF1_TARGET
  {
    var d := DIFF1_TARGET / target;
    DivisionBounds(DIFF1_TARGET, target);
    MulLessEq(hash, target, d);
  }
}
