/**
 * The sponge construction SPONGE[f, pad, r] of FIPS 202 section 4
 * (Algorithm 8) over the 200-byte state, with the rate given in bytes and
 * the permutation f a parameter, and the byte-level pad10*1 rule with a
 * domain-separation suffix byte used by original Keccak.  These are
 * reference definitions: module Sponge proves the loops of the C function
 * Keccak against them with f = Keccak-f[1600].
 */
module SpongeSpec {
  import opened KeccakState
  import opened KeccakSpec
  import opened SeqLemmas
  import opened Blocks

  /** The all-zero state that the sponge starts from. */
  function ZeroState(): (S: seq<bv8>)
    ensures |S| == StateBytes && forall i :: 0 <= i < StateBytes ==> S[i] == 0
  {
    seq(StateBytes, _ => 0)
  }

  /** k zero bytes. */
  function Zeros(k: nat): (z: seq<bv8>)
    ensures |z| == k && forall i :: 0 <= i < k ==> z[i] == 0
  {
    seq(k, _ => 0)
  }

  /** S with the bytes of t XORed into its first |t| bytes. */
  function XorInto(S: seq<bv8>, t: seq<bv8>): (S': seq<bv8>)
    ensures |S'| == |S|
  {
    seq(|S|, i requires 0 <= i < |S| => if i < |t| then S[i] ^ t[i] else S[i])
  }

  /** f maps every byte string to one of the same length, as a permutation of the state does. */
  ghost predicate KeepsLength(f: seq<bv8> -> seq<bv8>)
  {
    forall x :: |f(x)| == |x|
  }

  /**
   * The state after absorbing the R-byte blocks of P in order, starting
   * from S: for each block B, S := f(S xor B) (Algorithm 8, step 6).  A
   * partial block at the end of P is not absorbed; the sponge only applies
   * this to whole numbers of blocks.
   */
  function AbsorbBlocks(f: seq<bv8> -> seq<bv8>, S: seq<bv8>, P: seq<bv8>, R: nat): (S': seq<bv8>)
    requires KeepsLength(f) && |S| == StateBytes && 0 < R <= StateBytes
    ensures |S'| == StateBytes
    decreases |P|
  {
    if |P| < R then S
    else AbsorbBlocks(f, f(XorInto(S, P[..R])), P[R..], R)
  }

  /** X with byte i XORed with v. */
  function XorAt(X: seq<bv8>, i: nat, v: bv8): (Y: seq<bv8>)
    requires i < |X|
    ensures |Y| == |X|
  {
    X[i := X[i] ^ v]
  }

  /** Whether the padding needs a block of its own: the suffix has bit 7 set and only one byte is left in the block. */
  predicate ExtraPadBlock(b: nat, R: nat, sfx: bv8)
  {
    sfx & 0x80 != 0 && b + 1 == R
  }

  /**
   * The bytes appended to a message that leaves b bytes in its last block:
   * the suffix byte, zeros, and a final 0x80 that ends a block.  The final
   * 0x80 lands on the suffix byte itself when only one byte is left in the
   * block, unless the suffix has bit 7 set, in which case a whole block of
   * zeros ending in 0x80 follows instead.
   */
  function PadBytes(b: nat, R: nat, sfx: bv8): (p: seq<bv8>)
    requires b < R
  {
    if ExtraPadBlock(b, R, sfx) then [sfx] + Zeros(R - 1) + [0x80]
    else if b + 1 == R then [sfx ^ 0x80]
    else [sfx] + Zeros(R - b - 2) + [0x80]
  }

  /**
   * The padding step as the C function performs it on a state X that holds
   * the last b < R message bytes XORed in: the suffix is XORed into byte b,
   * the state is permuted if the padding needs an extra block, 0x80 is
   * XORed into byte R - 1, and the state is permuted.
   */
  function PadState(f: seq<bv8> -> seq<bv8>, X: seq<bv8>, b: nat, R: nat, sfx: bv8): (X': seq<bv8>)
    requires KeepsLength(f) && |X| == StateBytes && b < R <= StateBytes
    ensures |X'| == StateBytes
  {
    var X1 := XorAt(X, b, sfx);
    var X2 := if ExtraPadBlock(b, R, sfx) then f(X1) else X1;
    f(XorAt(X2, R - 1, 0x80))
  }

  /** The padded message. */
  function Pad(M: seq<bv8>, R: nat, sfx: bv8): (P: seq<bv8>)
    requires 0 < R
  {
    M + PadBytes(|M| % R, R, sfx)
  }

  /**
   * The first n bytes squeezed from S: S[0..R) after each permutation,
   * with a permutation between two blocks and none after the last.
   */
  function Squeeze(f: seq<bv8> -> seq<bv8>, S: seq<bv8>, n: nat, R: nat): (Z: seq<bv8>)
    requires KeepsLength(f) && |S| == StateBytes && 0 < R <= StateBytes
    ensures |Z| == n
    decreases n
  {
    if n <= R then S[..n] else S[..R] + Squeeze(f, f(S), n - R, R)
  }

  /** SPONGE[f, pad10*1 with suffix sfx, R] on message M, taking n output bytes. */
  function Sponge(f: seq<bv8> -> seq<bv8>, M: seq<bv8>, R: nat, sfx: bv8, n: nat): (Z: seq<bv8>)
    requires KeepsLength(f) && 0 < R <= StateBytes
    ensures |Z| == n
  {
    Squeeze(f, AbsorbBlocks(f, ZeroState(), Pad(M, R, sfx), R), n, R)
  }

  lemma KeccakPKeepsLength()
    ensures KeepsLength(KeccakP)
  {
    forall x
      ensures |KeccakP(x)| == |x|
    {
    }
  }

  /** KECCAK[c] of FIPS 202 section 5.2 generalised to any suffix: the sponge over Keccak-f[1600] with a rate of R bytes. */
  function KeccakSponge(M: seq<bv8>, R: nat, sfx: bv8, n: nat): (Z: seq<bv8>)
    requires 0 < R <= StateBytes
    ensures |Z| == n
  {
    KeccakPKeepsLength();
    Sponge(KeccakP, M, R, sfx, n)
  }

  /** Original Keccak-256: a rate of 1088 bits = 136 bytes, suffix 0x01 and 32 output bytes. */
  function Keccak256(M: seq<bv8>): (Z: seq<bv8>)
    ensures |Z| == 32
  {
    KeccakSponge(M, 136, 0x01, 32)
  }

  /**
   * The padded message is M followed by padding up to a whole number of
   * blocks: |M|/R + 1 blocks, or |M|/R + 2 with an extra padding block.
   */
  lemma PadIsBlocks(M: seq<bv8>, R: nat, sfx: bv8)
    requires 0 < R
    ensures Pad(M, R, sfx)[..|M|] == M
    ensures |Pad(M, R, sfx)| == (|M| / R + (if ExtraPadBlock(|M| % R, R, sfx) then 2 else 1)) * R
    ensures IsMultiple(|Pad(M, R, sfx)|, R)
  {
    var n := |M|;
    var b := n % R;
    var q := n / R;
    assert n == q * R + b;
    var k := if ExtraPadBlock(b, R, sfx) then 2 else 1;
    if ExtraPadBlock(b, R, sfx) {
      assert |PadBytes(b, R, sfx)| == R + 1;
      assert (q + 2) * R == q * R + R + R;
    } else {
      assert |PadBytes(b, R, sfx)| == R - b;
      assert (q + 1) * R == q * R + R;
    }
    assert |Pad(M, R, sfx)| == (q + k) * R;
    MultipleOf(q + k, R);
  }

  /**
   * Without an extra block, the padding starts with the suffix at offset
   * b = |M| mod R of the last block and ends with 0x80 at offset R - 1,
   * the two XORed together when b = R - 1, and is zero in between.
   */
  lemma PadShape(M: seq<bv8>, R: nat, sfx: bv8)
    requires 0 < R && !ExtraPadBlock(|M| % R, R, sfx)
    ensures var P := Pad(M, R, sfx); var b := |M| % R;
      && |P| == |M| + (R - b)
      && P[|M|] == (if b == R - 1 then sfx ^ 0x80 else sfx)
      && P[|P| - 1] == (if b == R - 1 then sfx ^ 0x80 else 0x80)
      && forall i :: |M| < i < |P| - 1 ==> P[i] == 0
  {
    var n := |M|;
    var b := n % R;
    var P := Pad(M, R, sfx);
    if b + 1 != R {
      var Z := Zeros(R - b - 2);
      assert P == M + [sfx] + Z + [0x80];
      forall i | n < i < |P| - 1
        ensures P[i] == 0
      {
        assert P[i] == Z[i - n - 1];
      }
    }
  }

  /** For Keccak-256 a message that leaves one byte free in its last block gets the single padding byte 0x81. */
  lemma Keccak256PadByte(M: seq<bv8>)
    requires |M| % 136 == 135
    ensures var P := Pad(M, 136, 0x01); |P| == |M| + 1 && P[|M|] == 0x81
  {
    assert !ExtraPadBlock(|M| % 136, 136, 0x01);
    PadShape(M, 136, 0x01);
  }

  /** Squeezing at most R bytes takes S[0..n) and runs no permutation. */
  lemma SqueezeOneBlock(f: seq<bv8> -> seq<bv8>, S: seq<bv8>, n: nat, R: nat)
    requires KeepsLength(f) && |S| == StateBytes && 0 < R <= StateBytes && n <= R
    ensures Squeeze(f, S, n, R) == S[..n]
  {
  }

  /**
   * Keccak-256 is the first 32 bytes of the state after absorbing the
   * padded message, which for the 0x01 suffix is |M|/136 + 1 blocks.
   */
  lemma Keccak256IsFirstBytes(M: seq<bv8>)
    ensures KeepsLength(KeccakP)
    ensures |Pad(M, 136, 0x01)| == (|M| / 136 + 1) * 136
    ensures Keccak256(M) == AbsorbBlocks(KeccakP, ZeroState(), Pad(M, 136, 0x01), 136)[..32]
  {
    KeccakPKeepsLength();
    PadIsBlocks(M, 136, 0x01);
    assert !ExtraPadBlock(|M| % 136, 136, 0x01);
  }

  /**
   * The number of calls of Keccak-f made by the C function Keccak: one per
   * full input block, one or two for the padding, and one between every two
   * output blocks.
   */
  function PermutationCalls(n: nat, R: nat, sfx: bv8, outLen: nat): nat
    requires 0 < R
  {
    n / R + (if ExtraPadBlock(n % R, R, sfx) then 2 else 1) + (if outLen == 0 then 0 else (outLen - 1) / R)
  }

  /** The permutations Squeeze makes while producing n bytes: one between each two blocks. */
  function SqueezeCalls(n: nat, R: nat): nat
    requires 0 < R
    decreases n
  {
    if n <= R then 0 else 1 + SqueezeCalls(n - R, R)
  }

  /** Producing n > 0 bytes takes (n - 1) / R permutations, and producing none takes none. */
  lemma {:induction false} SqueezeCallsIsDiv(n: nat, R: nat)
    requires 0 < R
    ensures SqueezeCalls(n, R) == if n == 0 then 0 else (n - 1) / R
    decreases n
  {
    if 0 < n <= R {
      DivModUnique(n - 1, R, 0, n - 1);
    } else if R < n {
      SqueezeCallsIsDiv(n - R, R);
      var q, r := (n - R - 1) / R, (n - R - 1) % R;
      assert (q + 1) * R == q * R + R;
      DivModUnique(n - 1, R, q + 1, r);
    }
  }

  /** The calls for absorbing are exactly the blocks of the padded message. */
  lemma PermutationCallsArePadBlocks(M: seq<bv8>, R: nat, sfx: bv8, outLen: nat)
    requires 0 < R
    ensures PermutationCalls(|M|, R, sfx, outLen)
      == |Pad(M, R, sfx)| / R + (if outLen == 0 then 0 else (outLen - 1) / R)
  {
    PadIsBlocks(M, R, sfx);
    var k := |M| / R + (if ExtraPadBlock(|M| % R, R, sfx) then 2 else 1);
    DivModUnique(|Pad(M, R, sfx)|, R, k, 0);
  }

  /** For Keccak-256 the function makes |M|/136 + 1 calls: the extra padding block never occurs with suffix 0x01, and 32 output bytes fit in one block. */
  lemma {:induction false} Keccak256Calls(n: nat)
    ensures PermutationCalls(n, 136, 0x01, 32) == n / 136 + 1
    ensures !ExtraPadBlock(n % 136, 136, 0x01)
  {
    assert 0x01 & 0x80 as bv8 == 0;
    assert (32 - 1) / 136 == 0;
  }

  lemma XorIntoEmpty(S: seq<bv8>)
    ensures XorInto(S, []) == S
  {
  }

  /** XORing the empty slice m[p..p] changes nothing. */
  lemma XorIntoEmptySlice(S: seq<bv8>, m: seq<bv8>, p: nat)
    requires p <= |m|
    ensures XorInto(S, m[p..p]) == S
  {
    assert m[p..p] == [];
    XorIntoEmpty(S);
  }

  /** XORing a block of at most R bytes leaves the capacity bytes S[R..] as they were. */
  lemma XorIntoKeepsCapacity(S: seq<bv8>, t: seq<bv8>, R: nat)
    requires |t| <= R <= |S|
    ensures forall k :: R <= k < |S| ==> XorInto(S, t)[k] == S[k]
  {
  }

  /** A state that agrees byte by byte with XorInto(S, t) is XorInto(S, t). */
  lemma XorIntoIs(S: seq<bv8>, t: seq<bv8>, S': seq<bv8>)
    requires |S'| == |S| && |t| <= |S|
    requires forall k :: 0 <= k < |t| ==> S'[k] == S[k] ^ t[k]
    requires forall k :: |t| <= k < |S| ==> S'[k] == S[k]
    ensures S' == XorInto(S, t)
  {
    var L := XorInto(S, t);
    forall k | 0 <= k < |t|
      ensures L[k] == S'[k]
    {
    }
    forall k | |t| <= k < |S|
      ensures L[k] == S'[k]
    {
    }
  }

  /** Trailing zero bytes change nothing. */
  lemma XorIntoZeros(S: seq<bv8>, T: seq<bv8>, k: nat)
    requires |T| + k <= |S|
    ensures XorInto(S, T + Zeros(k)) == XorInto(S, T)
  {
    var Z := Zeros(k);
    var L, M := XorInto(S, T + Z), XorInto(S, T);
    forall i | 0 <= i < |T|
      ensures L[i] == M[i]
    {
      assert (T + Z)[i] == T[i];
    }
    forall i | |T| <= i < |T| + k
      ensures L[i] == M[i]
    {
      assert (T + Z)[i] == 0;
    }
    forall i | |T| + k <= i < |S|
      ensures L[i] == M[i]
    {
    }
    assert L == M;
  }

  /** XORing T and then the byte v at offset |T|. */
  lemma XorIntoSnoc(S: seq<bv8>, T: seq<bv8>, v: bv8)
    requires |T| < |S|
    ensures var s1 := XorInto(S, T); XorInto(S, T + [v]) == XorAt(s1, |T|, v)
  {
  }

  /** XORing u and then v into byte i is XORing u ^ v into it. */
  lemma XorAtTwice(X: seq<bv8>, i: nat, u: bv8, v: bv8)
    requires i < |X|
    ensures XorAt(XorAt(X, i, u), i, v) == XorAt(X, i, u ^ v)
  {
    assert (X[i] ^ u) ^ v == X[i] ^ (u ^ v);
    UpdateTwice(X, i, X[i] ^ u, X[i] ^ (u ^ v));
  }

  /** XORing k zeros and then v is XORing v into byte k. */
  lemma ZerosThenByte(S: seq<bv8>, k: nat, v: bv8)
    requires k < |S|
    ensures XorInto(S, Zeros(k) + [v]) == XorAt(S, k, v)
  {
    var e: seq<bv8> := [];
    assert e + Zeros(k) == Zeros(k);
    XorIntoZeros(S, e, k);
    XorIntoEmpty(S);
    assert XorInto(S, Zeros(k)) == S;
    XorIntoSnoc(S, Zeros(k), v);
  }

  /** A single block is absorbed by one permutation. */
  lemma AbsorbOneBlock(f: seq<bv8> -> seq<bv8>, S: seq<bv8>, B: seq<bv8>, R: nat)
    requires KeepsLength(f) && |S| == StateBytes && 0 < R <= StateBytes && |B| == R
    ensures AbsorbBlocks(f, S, B, R) == f(XorInto(S, B))
  {
    assert B[..R] == B;
  }

  /** Absorbing a whole number of blocks P and then Q is absorbing P + Q. */
  lemma {:induction false} AbsorbBlocksAppend(f: seq<bv8> -> seq<bv8>, S: seq<bv8>, P: seq<bv8>, Q: seq<bv8>, R: nat)
    requires KeepsLength(f) && |S| == StateBytes && 0 < R <= StateBytes && IsMultiple(|P|, R)
    ensures AbsorbBlocks(f, S, P + Q, R) == AbsorbBlocks(f, AbsorbBlocks(f, S, P, R), Q, R)
    decreases |P|
  {
    if |P| == 0 {
      assert P + Q == Q;
    } else {
      assert (P + Q)[..R] == P[..R];
      assert (P + Q)[R..] == P[R..] + Q;
      AbsorbBlocksAppend(f, f(XorInto(S, P[..R])), P[R..], Q, R);
    }
  }

  /** Absorbing one more block is one more permutation. */
  lemma AbsorbBlocksNext(f: seq<bv8> -> seq<bv8>, S: seq<bv8>, P: seq<bv8>, B: seq<bv8>, R: nat)
    requires KeepsLength(f) && |S| == StateBytes && 0 < R <= StateBytes && IsMultiple(|P|, R) && |B| == R
    ensures AbsorbBlocks(f, S, P + B, R) == f(XorInto(AbsorbBlocks(f, S, P, R), B))
  {
    AbsorbBlocksAppend(f, S, P, B, R);
    AbsorbOneBlock(f, AbsorbBlocks(f, S, P, R), B, R);
  }

  /** The prefix of m of p + R bytes absorbs one block more than the prefix of p bytes. */
  lemma AbsorbPrefixNext(f: seq<bv8> -> seq<bv8>, S: seq<bv8>, m: seq<bv8>, p: nat, R: nat)
    requires KeepsLength(f) && |S| == StateBytes && 0 < R <= StateBytes && p + R <= |m| && IsMultiple(p, R)
    ensures AbsorbBlocks(f, S, m[..p + R], R) == f(XorInto(AbsorbBlocks(f, S, m[..p], R), m[p..p + R]))
  {
    TakeSplit(m, p, p + R);
    AbsorbSplit(f, S, m[..p + R], m[..p], m[p..p + R], R);
  }

  /** AbsorbBlocksNext for a string Q known to be P + B. */
  lemma AbsorbSplit(f: seq<bv8> -> seq<bv8>, S: seq<bv8>, Q: seq<bv8>, P: seq<bv8>, B: seq<bv8>, R: nat)
    requires KeepsLength(f) && |S| == StateBytes && 0 < R <= StateBytes && IsMultiple(|P|, R) && |B| == R
    requires Q == P + B
    ensures AbsorbBlocks(f, S, Q, R) == f(XorInto(AbsorbBlocks(f, S, P, R), B))
  {
    AbsorbBlocksNext(f, S, P, B, R);
  }

  /**
   * Absorbing the padded message is absorbing its full blocks P and then
   * the last partial block T followed by the padding bytes.
   */
  lemma PaddedState(f: seq<bv8> -> seq<bv8>, M: seq<bv8>, R: nat, sfx: bv8, P: seq<bv8>, T: seq<bv8>)
    requires KeepsLength(f) && 0 < R <= StateBytes && IsMultiple(|P|, R) && |T| == |M| % R && M == P + T
    ensures AbsorbBlocks(f, ZeroState(), Pad(M, R, sfx), R)
      == AbsorbBlocks(f, AbsorbBlocks(f, ZeroState(), P, R), T + PadBytes(|T|, R, sfx), R)
  {
    AppendAssoc(P, T, PadBytes(|T|, R, sfx));
    AbsorbBlocksAppend(f, ZeroState(), P, T + PadBytes(|T|, R, sfx), R);
  }

  /**
   * Without an extra block, XORing the last partial block T followed by its
   * padding is what the C code does: XOR T, then the suffix into byte |T|,
   * then 0x80 into byte R - 1.
   */
  lemma PadInto(S: seq<bv8>, T: seq<bv8>, R: nat, sfx: bv8)
    requires |S| == StateBytes && |T| < R <= StateBytes && !ExtraPadBlock(|T|, R, sfx)
    ensures |T + PadBytes(|T|, R, sfx)| == R
    ensures var s1 := XorInto(S, T); var s2 := XorAt(s1, |T|, sfx);
      XorInto(S, T + PadBytes(|T|, R, sfx)) == XorAt(s2, R - 1, 0x80)
  {
    if |T| + 1 == R {
      PadIntoLastByte(S, T, sfx);
    } else {
      PadIntoBlock(S, T, R, sfx);
    }
  }

  /** The suffix and 0x80 both land on the last byte of the block. */
  lemma PadIntoLastByte(S: seq<bv8>, T: seq<bv8>, sfx: bv8)
    requires |T| < |S|
    ensures var s1 := XorInto(S, T); var s2 := XorAt(s1, |T|, sfx);
      XorInto(S, T + [sfx ^ 0x80]) == XorAt(s2, |T|, 0x80)
  {
    XorIntoSnoc(S, T, sfx ^ 0x80);
    XorAtTwice(XorInto(S, T), |T|, sfx, 0x80);
  }

  /** The suffix at byte |T| and 0x80 at byte R - 1, zeros in between. */
  lemma PadIntoBlock(S: seq<bv8>, T: seq<bv8>, R: nat, sfx: bv8)
    requires |S| == StateBytes && |T| + 1 < R <= StateBytes
    ensures var s1 := XorInto(S, T); var s2 := XorAt(s1, |T|, sfx);
      XorInto(S, T + ([sfx] + Zeros(R - |T| - 2) + [0x80])) == XorAt(s2, R - 1, 0x80)
  {
    PadBlockRegroup(T, R, sfx);
    SuffixThenZeros(S, T, R, sfx);
    XorIntoSnoc(S, (T + [sfx]) + Zeros(R - |T| - 2), 0x80);
  }

  lemma PadBlockRegroup(T: seq<bv8>, R: nat, sfx: bv8)
    requires |T| + 1 < R
    ensures T + ([sfx] + Zeros(R - |T| - 2) + [0x80]) == ((T + [sfx]) + Zeros(R - |T| - 2)) + [0x80]
  {
    var Z := Zeros(R - |T| - 2);
    AppendAssoc(T, [sfx], Z);
    AppendAssoc(T, [sfx] + Z, [0x80]);
  }

  lemma SuffixThenZeros(S: seq<bv8>, T: seq<bv8>, R: nat, sfx: bv8)
    requires |S| == StateBytes && |T| + 1 < R <= StateBytes
    ensures var s1 := XorInto(S, T);
      XorInto(S, (T + [sfx]) + Zeros(R - |T| - 2)) == XorAt(s1, |T|, sfx)
  {
    XorIntoSnoc(S, T, sfx);
    XorIntoZeros(S, T + [sfx], R - |T| - 2);
  }

  /**
   * With an extra block, the padding bytes are T + [sfx], one permutation,
   * and a block of zeros ending in 0x80.
   */
  lemma PadIntoExtra(f: seq<bv8> -> seq<bv8>, S: seq<bv8>, T: seq<bv8>, R: nat, sfx: bv8)
    requires KeepsLength(f) && |S| == StateBytes && |T| < R <= StateBytes && ExtraPadBlock(|T|, R, sfx)
    ensures |T + PadBytes(|T|, R, sfx)| == 2 * R
    ensures var s1 := XorInto(S, T); var s2 := f(XorAt(s1, |T|, sfx));
      AbsorbBlocks(f, S, T + PadBytes(|T|, R, sfx), R) == f(XorAt(s2, R - 1, 0x80))
  {
    var Z := Zeros(R - 1);
    var B1, B2 := T + [sfx], Z + [0x80 as bv8];
    AppendAssoc(T, [sfx] + Z, [0x80]);
    AppendAssoc(T, [sfx], Z);
    AppendAssoc(B1, Z, [0x80]);
    assert T + PadBytes(|T|, R, sfx) == B1 + B2;
    SuffixBlock(f, S, T, R, sfx);
    var s2 := AbsorbBlocks(f, S, B1, R);
    AbsorbBlocksNext(f, S, B1, B2, R);
    ZerosThenByte(s2, R - 1, 0x80);
  }

  /**
   * Absorbing the last partial block T followed by its padding is what the
   * C code does: XOR T, XOR the suffix into byte b = |T|, permute if the
   * padding needs an extra block, XOR 0x80 into byte R - 1, and permute.
   */
  lemma PadSteps(f: seq<bv8> -> seq<bv8>, A: seq<bv8>, T: seq<bv8>, b: nat, R: nat, sfx: bv8)
    requires KeepsLength(f) && |A| == StateBytes && b == |T| && b < R <= StateBytes
    ensures AbsorbBlocks(f, A, T + PadBytes(b, R, sfx), R) == PadState(f, XorInto(A, T), b, R, sfx)
  {
    if ExtraPadBlock(b, R, sfx) {
      PadIntoExtra(f, A, T, R, sfx);
    } else {
      PadInto(A, T, R, sfx);
      AbsorbOneBlock(f, A, T + PadBytes(b, R, sfx), R);
    }
  }

  /** The block T + [sfx], absorbed on its own. */
  lemma SuffixBlock(f: seq<bv8> -> seq<bv8>, S: seq<bv8>, T: seq<bv8>, R: nat, sfx: bv8)
    requires KeepsLength(f) && |S| == StateBytes && |T| + 1 == R <= StateBytes
    ensures var s1 := XorInto(S, T); AbsorbBlocks(f, S, T + [sfx], R) == f(XorAt(s1, |T|, sfx))
  {
    AbsorbOneBlock(f, S, T + [sfx], R);
    XorIntoSnoc(S, T, sfx);
  }
}
