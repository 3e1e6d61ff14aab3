/**
 * Keccak-f[1600] on the 25-lane view of the state, following section 3 of
 * FIPS 202 with lane (x, y) at index x + 5*y and w = 64.  Each step mapping
 * is written the way the standard defines it, independently of the loops of
 * the C code, which are proved against these functions in module
 * Permutation.
 */
module KeccakSpec {
  import opened KeccakState
  import opened RoundConstants

  /** C[x]: the XOR of the five lanes of column x (step 1 of Algorithm 1). */
  function ColumnParity(A: seq<bv64>, x: nat): bv64
    requires |A| == LaneCount && x < 5
  {
    A[x] ^ A[x + 5] ^ A[x + 10] ^ A[x + 15] ^ A[x + 20]
  }

  /** D[x] = C[(x-1) mod 5] xor rot(C[(x+1) mod 5], 1) (step 2 of Algorithm 1). */
  function ThetaEffect(A: seq<bv64>, x: nat): bv64
    requires |A| == LaneCount && x < 5
  {
    ColumnParity(A, (x + 4) % 5) ^ ColumnParity(A, (x + 1) % 5).RotateLeft(1)
  }

  /** theta (Algorithm 1): every lane of column x is XORed with D[x]. */
  function Theta(A: seq<bv64>): (A': seq<bv64>)
    requires |A| == LaneCount
    ensures |A'| == LaneCount
  {
    seq(LaneCount, k requires 0 <= k < LaneCount => A[k] ^ ThetaEffect(A, k % 5))
  }

  /** The rotation offset of lane k = x + 5*y: Table 2 of FIPS 202. */
  function RhoOffset(k: nat): nat
    requires k < LaneCount
  {
    if k == 0 then 0 else if k == 1 then 1 else if k == 2 then 190 else if k == 3 then 28 else if k == 4 then 91
    else if k == 5 then 36 else if k == 6 then 300 else if k == 7 then 6 else if k == 8 then 55 else if k == 9 then 276
    else if k == 10 then 3 else if k == 11 then 10 else if k == 12 then 171 else if k == 13 then 153 else if k == 14 then 231
    else if k == 15 then 105 else if k == 16 then 45 else if k == 17 then 15 else if k == 18 then 21 else if k == 19 then 136
    else if k == 20 then 210 else if k == 21 then 66 else if k == 22 then 253 else if k == 23 then 120
    else 78
  }

  /**
   * Lane k of rho: a rotated left by RhoOffset(k) mod 64, the offsets of
   * Table 2 reduced modulo w = 64.
   */
  function RhoLane(a: bv64, k: nat): bv64
    requires k < LaneCount
  {
    if k == 0 then a else if k == 1 then a.RotateLeft(1) else if k == 2 then a.RotateLeft(62) else if k == 3 then a.RotateLeft(28)
    else if k == 4 then a.RotateLeft(27) else if k == 5 then a.RotateLeft(36) else if k == 6 then a.RotateLeft(44) else if k == 7 then a.RotateLeft(6)
    else if k == 8 then a.RotateLeft(55) else if k == 9 then a.RotateLeft(20) else if k == 10 then a.RotateLeft(3) else if k == 11 then a.RotateLeft(10)
    else if k == 12 then a.RotateLeft(43) else if k == 13 then a.RotateLeft(25) else if k == 14 then a.RotateLeft(39) else if k == 15 then a.RotateLeft(41)
    else if k == 16 then a.RotateLeft(45) else if k == 17 then a.RotateLeft(15) else if k == 18 then a.RotateLeft(21) else if k == 19 then a.RotateLeft(8)
    else if k == 20 then a.RotateLeft(18) else if k == 21 then a.RotateLeft(2) else if k == 22 then a.RotateLeft(61) else if k == 23 then a.RotateLeft(56)
    else a.RotateLeft(14)
  }

  /** rho (Algorithm 2): every lane rotated by its offset. */
  function Rho(A: seq<bv64>): (A': seq<bv64>)
    requires |A| == LaneCount
    ensures |A'| == LaneCount
  {
    seq(LaneCount, k requires 0 <= k < LaneCount => RhoLane(A[k], k))
  }

  /** The lane that pi moves to lane k = x + 5*y: lane ((x + 3y) mod 5, x). */
  function PiSource(k: nat): (k': nat)
    requires k < LaneCount
    ensures k' < LaneCount
  {
    (k % 5 + 3 * (k / 5)) % 5 + 5 * (k % 5)
  }

  /** pi (Algorithm 3): A'[x, y] = A[(x + 3y) mod 5, x]. */
  function Pi(A: seq<bv64>): (A': seq<bv64>)
    requires |A| == LaneCount
    ensures |A'| == LaneCount
  {
    seq(LaneCount, k requires 0 <= k < LaneCount => A[PiSource(k)])
  }

  /** chi (Algorithm 4): A'[x, y] = A[x, y] xor (not A[x+1, y] and A[x+2, y]). */
  function Chi(A: seq<bv64>): (A': seq<bv64>)
    requires |A| == LaneCount
    ensures |A'| == LaneCount
  {
    seq(LaneCount, k requires 0 <= k < LaneCount => ChiLane(A, k % 5, k / 5))
  }

  /** Lane (x, y) of chi(A). */
  function ChiLane(A: seq<bv64>, x: nat, y: nat): bv64
    requires |A| == LaneCount && x < 5 && y < 5
  {
    A[LaneIndex(x, y)] ^ ((!A[LaneIndex((x + 1) % 5, y)]) & A[LaneIndex((x + 2) % 5, y)])
  }

  /** iota (Algorithm 6): lane (0, 0) is XORed with the round constant. */
  function Iota(A: seq<bv64>, ir: nat): (A': seq<bv64>)
    requires |A| == LaneCount
    ensures |A'| == LaneCount
  {
    A[0 := A[0] ^ RoundConstant(ir)]
  }

  /** Rnd(A, ir) = iota(chi(pi(rho(theta(A)))), ir). */
  function Round(A: seq<bv64>, ir: nat): (A': seq<bv64>)
    requires |A| == LaneCount
    ensures |A'| == LaneCount
  {
    Iota(Chi(Pi(Rho(Theta(A)))), ir)
  }

  /** The first n rounds of Keccak-f[1600] (Algorithm 7 with 24 rounds, ir = 0..n-1). */
  function Rounds(A: seq<bv64>, n: nat): (A': seq<bv64>)
    requires |A| == LaneCount
    ensures |A'| == LaneCount
  {
    if n == 0 then A else Round(Rounds(A, n - 1), n - 1)
  }

  /** Keccak-f[1600] on lanes. */
  function KeccakF(A: seq<bv64>): (A': seq<bv64>)
    requires |A| == LaneCount
    ensures |A'| == LaneCount
  {
    Rounds(A, 24)
  }

  /** Keccak-f[1600] on the 200-byte state. */
  function Permute(b: seq<bv8>): (b': seq<bv8>)
    requires |b| == StateBytes
    ensures |b'| == StateBytes
  {
    Bytes(KeccakF(Lanes(b)))
  }

  /**
   * Keccak-f[1600] as a total function on byte strings, the f of the sponge
   * construction: a 200-byte state is permuted, and a string of any other
   * length, which is never a state, is left as it is.
   */
  function KeccakP(b: seq<bv8>): (b': seq<bv8>)
    ensures |b'| == |b|
  {
    if |b| == StateBytes then Permute(b) else b
  }

  /** theta adds the same word D[x] to all five lanes of column x. */
  lemma ThetaColumnUniform(A: seq<bv64>, x: nat, y1: nat, y2: nat)
    requires |A| == LaneCount && x < 5 && y1 < 5 && y2 < 5
    ensures Theta(A)[LaneIndex(x, y1)] ^ A[LaneIndex(x, y1)] == Theta(A)[LaneIndex(x, y2)] ^ A[LaneIndex(x, y2)]
  {
    var d := ThetaEffect(A, x);
    XorCancel(A[LaneIndex(x, y1)], d);
    XorCancel(A[LaneIndex(x, y2)], d);
  }

  /** pi is a permutation of the lanes: distinct lanes come from distinct lanes. */
  lemma PiSourceInjective(x1: nat, y1: nat, x2: nat, y2: nat)
    requires x1 < 5 && y1 < 5 && x2 < 5 && y2 < 5
    requires PiSource(LaneIndex(x1, y1)) == PiSource(LaneIndex(x2, y2))
    ensures x1 == x2 && y1 == y2
  {
    PiSourceOfLane(x1, y1);
    PiSourceOfLane(x2, y2);
    SameDigits((x1 + 3 * y1) % 5, x1, (x2 + 3 * y2) % 5, x2);
    ThreeYInjective(x1, y1, y2);
  }

  /** pi moves lane ((x + 3y) mod 5, x) to lane (x, y). */
  lemma PiSourceOfLane(x: nat, y: nat)
    requires x < 5 && y < 5
    ensures PiSource(LaneIndex(x, y)) == (x + 3 * y) % 5 + 5 * x
  {
  }

  lemma SameDigits(r1: nat, x1: nat, r2: nat, x2: nat)
    requires r1 < 5 && r2 < 5 && r1 + 5 * x1 == r2 + 5 * x2
    ensures x1 == x2 && r1 == r2
  {
  }

  /** 3 is invertible modulo 5. */
  lemma ThreeYInjective(x: nat, y1: nat, y2: nat)
    requires y1 < 5 && y2 < 5 && (x + 3 * y1) % 5 == (x + 3 * y2) % 5
    ensures y1 == y2
  {
    var q1, q2 := (x + 3 * y1) / 5, (x + 3 * y2) / 5;
    assert 3 * (y1 - y2) == 5 * (q1 - q2);
  }

  /** pi keeps lane (0, 0) in place. */
  lemma PiFixesOrigin()
    ensures PiSource(0) == 0
  {
  }

  /** Lane (x, y) of chi depends only on row y of the input. */
  lemma ChiRowLocal(A: seq<bv64>, B: seq<bv64>, x: nat, y: nat)
    requires |A| == LaneCount && |B| == LaneCount && x < 5 && y < 5
    requires forall x' :: 0 <= x' < 5 ==> A[LaneIndex(x', y)] == B[LaneIndex(x', y)]
    ensures Chi(A)[LaneIndex(x, y)] == Chi(B)[LaneIndex(x, y)]
  {
    var k := LaneIndex(x, y);
    assert Chi(A)[k] == ChiLane(A, x, y);
    assert Chi(B)[k] == ChiLane(B, x, y);
    assert A[LaneIndex(x, y)] == B[LaneIndex(x, y)];
    assert A[LaneIndex((x + 1) % 5, y)] == B[LaneIndex((x + 1) % 5, y)];
    assert A[LaneIndex((x + 2) % 5, y)] == B[LaneIndex((x + 2) % 5, y)];
  }

  /** iota changes only lane (0, 0), and only at the bits 2^j - 1. */
  lemma IotaTouchesOnlyOrigin(A: seq<bv64>, ir: nat)
    requires |A| == LaneCount
    ensures forall k :: 1 <= k < LaneCount ==> Iota(A, ir)[k] == A[k]
    ensures (Iota(A, ir)[0] ^ A[0]) & !IotaMask == 0
  {
    RoundConstantUpToInMask(ir, 7);
    XorCancel(A[0], RoundConstant(ir));
  }

  lemma XorCancel(a: bv64, b: bv64)
    ensures (a ^ b) ^ a == b
  {
  }
}
