/**
 * Round constants of Keccak-f[1600].
 *
 * The reference half follows section 3.2.5 of FIPS 202: Algorithm 5 defines
 * the bit rc(t) by a linear feedback shift register over an 8-bit string
 * R[0..7], and the constant of round ir has bit 2^j - 1 equal to
 * rc(j + 7*ir) for j = 0..6 and every other bit zero.
 *
 * The implementation half is LFSR86540, the one-byte register of the C code
 * (feedback 0x71 when the top bit is set).  Its byte is the bit string R with
 * R[k] as bit k, and it is proved to take exactly the steps of Algorithm 5.
 */
module RoundConstants {

  /** One iteration of the loop of FIPS 202 Algorithm 5 on the bit string R. */
  function FipsLfsrStep(R: seq<bool>): (R': seq<bool>)
    requires |R| == 8
    ensures |R'| == 8
  {
    var a := [false] + R;           // R = 0 || R
    var a := a[0 := a[0] != a[8]];  // R[0] = R[0] xor R[8]
    var a := a[4 := a[4] != a[8]];  // R[4] = R[4] xor R[8]
    var a := a[5 := a[5] != a[8]];  // R[5] = R[5] xor R[8]
    var a := a[6 := a[6] != a[8]];  // R[6] = R[6] xor R[8]
    a[..8]                          // R = Trunc8[R]
  }

  /** The step of Algorithm 5 written out bit by bit. */
  lemma FipsLfsrStepBits(R: seq<bool>)
    requires |R| == 8
    ensures FipsLfsrStep(R) == [R[7], R[0], R[1], R[2], R[3] != R[7], R[4] != R[7], R[5] != R[7], R[6]]
  {
  }

  /** The bit string R of Algorithm 5 after n iterations from R = 10000000. */
  function FipsLfsr(n: nat): (R: seq<bool>)
    ensures |R| == 8
  {
    if n == 0 then [true, false, false, false, false, false, false, false]
    else FipsLfsrStep(FipsLfsr(n - 1))
  }

  /** rc(t) of FIPS 202 Algorithm 5. */
  function Rc(t: nat): bool
  {
    FipsLfsr(t % 255)[0]
  }

  /** 2^j, the value of the C expression 1 << j. */
  function Pow2(j: nat): (p: nat)
    ensures p >= 1
  {
    if j == 0 then 1 else 2 * Pow2(j - 1)
  }

  /** The bit positions 2^j - 1 that iota can touch, for j < 7. */
  lemma Pow2Small(j: nat)
    requires j < 7
    ensures var p := Pow2(j) - 1;
      p == 0 || p == 1 || p == 3 || p == 7 || p == 15 || p == 31 || p == 63
  {
    if j == 0 {
    } else if j == 1 {
    } else if j == 2 {
    } else if j == 3 {
    } else if j == 4 {
    } else if j == 5 {
    } else {
      assert Pow2(6) == 64;
    }
  }

  /** The bits 2^j - 1, j = 0..6, that a round constant may have set. */
  const IotaMask: bv64 := 0x8000_0000_8000_808B

  /**
   * The word with only bit 2^j - 1 set, for j < 7: the bit of lane (0, 0)
   * that bit j of a round constant lands on.
   */
  function IotaBit(j: nat): (b: bv64)
    requires j < 7
    ensures b & !IotaMask == 0
  {
    if j == 0 then 0x1 else if j == 1 then 0x2 else if j == 2 then 0x8 else if j == 3 then 0x80
    else if j == 4 then 0x8000 else if j == 5 then 0x8000_0000 else 0x8000_0000_0000_0000
  }

  /** IotaBit(j) is the C expression (u64)1 << ((1 << j) - 1). */
  lemma IotaBitIsShift(j: nat)
    requires j < 7
    ensures Pow2(j) - 1 < 64 && IotaBit(j) == (1 as bv64) << (Pow2(j) - 1)
  {
    Pow2Small(j);
    if j == 0 {
    } else if j == 1 {
    } else if j == 2 {
      assert Pow2(2) == 4;
    } else if j == 3 {
      assert Pow2(3) == 8;
    } else if j == 4 {
      assert Pow2(4) == 16;
    } else if j == 5 {
      assert Pow2(5) == 32;
    } else {
      assert Pow2(6) == 64;
    }
  }

  /** IotaMask has exactly the bits 0, 1, 3, 7, 15, 31 and 63 set. */
  lemma IotaMaskBits()
    ensures IotaMask == IotaBit(0) | IotaBit(1) | IotaBit(2) | IotaBit(3) | IotaBit(4) | IotaBit(5) | IotaBit(6)
  {
  }

  /** The contribution of bit j of round ir: rc(j + 7*ir) at position 2^j - 1. */
  function RoundBit(ir: nat, j: nat): (b: bv64)
    requires j < 7
    ensures b & !IotaMask == 0
  {
    if Rc(j + 7 * ir) then IotaBit(j) else 0
  }

  /**
   * The round constant of round ir with only the bits for j' < j filled in:
   * bit 2^j' - 1 is rc(j' + 7*ir).
   */
  function RoundConstantUpTo(ir: nat, j: nat): bv64
    requires j <= 7
  {
    if j == 0 then 0 else RoundConstantUpTo(ir, j - 1) ^ RoundBit(ir, j - 1)
  }

  /** RC[ir] of FIPS 202 Algorithm 6. */
  function RoundConstant(ir: nat): bv64
  {
    RoundConstantUpTo(ir, 7)
  }

  lemma XorInMask(a: bv64, b: bv64)
    requires a & !IotaMask == 0 && b & !IotaMask == 0
    ensures (a ^ b) & !IotaMask == 0
  {
  }

  /** Every round constant has bits only at the positions 2^j - 1. */
  lemma {:induction false} RoundConstantUpToInMask(ir: nat, j: nat)
    requires j <= 7
    ensures RoundConstantUpTo(ir, j) & !IotaMask == 0
  {
    if j > 0 {
      RoundConstantUpToInMask(ir, j - 1);
      XorInMask(RoundConstantUpTo(ir, j - 1), RoundBit(ir, j - 1));
    }
  }

  /** The bit string R[0..7] held by a byte: R[k] is bit k. */
  function BitsOf(b: bv8): (R: seq<bool>)
    ensures |R| == 8
  {
    [b & 1 != 0, b & 2 != 0, b & 4 != 0, b & 8 != 0,
     b & 16 != 0, b & 32 != 0, b & 64 != 0, b & 128 != 0]
  }

  /** The new register byte of LFSR86540: the byte shifted left by one, XORed with 0x71 when the bit shifted out was set. */
  function LfsrShift(r: bv8): bv8
  {
    (r << 1) ^ (if r & 0x80 != 0 then 0x71 else 0)
  }

  /** Bit k of the new register byte, in terms of the bits of the old one. */
  lemma LfsrByteBits(r: bv8)
    ensures var r' := LfsrShift(r);
      && (r' & 1 != 0 <==> r & 128 != 0)
      && (r' & 2 != 0 <==> r & 1 != 0)
      && (r' & 4 != 0 <==> r & 2 != 0)
      && (r' & 8 != 0 <==> r & 4 != 0)
      && (r' & 16 != 0 <==> (r & 8 != 0) != (r & 128 != 0))
      && (r' & 32 != 0 <==> (r & 16 != 0) != (r & 128 != 0))
      && (r' & 64 != 0 <==> (r & 32 != 0) != (r & 128 != 0))
      && (r' & 128 != 0 <==> r & 64 != 0)
  {
  }

  /**
   * The shifted byte holds the bit string that one step of Algorithm 5
   * produces, and its bit 1 is the bit R[0] of the string before the step.
   */
  lemma LfsrShiftIsFipsStep(r: bv8)
    ensures BitsOf(LfsrShift(r)) == FipsLfsrStep(BitsOf(r))
    ensures (LfsrShift(r) & 2 != 0) == BitsOf(r)[0]
  {
    LfsrByteBits(r);
    FipsLfsrStepBits(BitsOf(r));
  }

  /** LFSR86540 (line 27): step the register and return bit 1 of the new byte. */
  function Lfsr86540(r: bv8): (bv8, bool)
  {
    var r' := LfsrShift(r);
    (r', (r' & 2) >> 1 != 0)
  }

  /**
   * LFSR86540 takes exactly the step of Algorithm 5, and the bit it returns
   * is bit 0 of the register before the step, that is R[0] of Algorithm 5.
   */
  lemma Lfsr86540IsFipsStep(r: bv8)
    ensures BitsOf(Lfsr86540(r).0) == FipsLfsrStep(BitsOf(r))
    ensures Lfsr86540(r).1 == BitsOf(r)[0]
  {
    LfsrShiftIsFipsStep(r);
    HalveBit1(LfsrShift(r));
  }

  lemma HalveBit1(r: bv8)
    ensures ((r & 2) >> 1 != 0) == (r & 2 != 0)
  {
  }

  /** The register byte after n calls of LFSR86540 from the seed 0x01. */
  function LfsrState(n: nat): bv8
  {
    if n == 0 then 0x01 else Lfsr86540(LfsrState(n - 1)).0
  }

  /** After n steps the byte register holds the bit string of Algorithm 5. */
  lemma {:induction false} LfsrStateIsFips(n: nat)
    ensures BitsOf(LfsrState(n)) == FipsLfsr(n)
  {
    if n > 0 {
      LfsrStateIsFips(n - 1);
      Lfsr86540IsFipsStep(LfsrState(n - 1));
    }
  }

  /** Call number n (from 0) of LFSR86540 after the seed returns rc(n). */
  lemma LfsrOutputIsRc(n: nat)
    requires n < 255
    ensures Lfsr86540(LfsrState(n)).1 == Rc(n)
  {
    LfsrStateIsFips(n);
    Lfsr86540IsFipsStep(LfsrState(n));
    assert n % 255 == n;
  }

  /**
   * Call j of round ir is call n = j + 7*ir of LFSR86540: from the register
   * LfsrState(n) it steps the register and returns the bit that decides
   * whether bit 2^j - 1 of the round constant is set.
   */
  lemma LfsrCall(ir: nat, j: nat, n: nat, R: bv8)
    requires j < 7 && n == j + 7 * ir && n < 255 && R == LfsrState(n)
    ensures Lfsr86540(R).0 == LfsrState(n + 1)
    ensures Lfsr86540(R).1 ==> RoundBit(ir, j) == IotaBit(j)
    ensures !Lfsr86540(R).1 ==> RoundBit(ir, j) == 0
  {
    LfsrOutputIsRc(n);
  }
}
