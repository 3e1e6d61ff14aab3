/**
 * The C function Keccak (the sponge over KeccakF1600 with a rate of r/8
 * bytes), and Keccak-256 on top of it.  The state is a 200-byte array; each
 * loop of the C code is a method proved against the reference sponge of
 * module SpongeSpec.  The pointers in and out that the C code advances
 * become offsets; the input, which the C code only reads, is a sequence.
 */
module Sponge {
  import opened KeccakState
  import opened KeccakSpec
  import opened Permutation
  import opened SpongeSpec
  import opened Blocks
  import opened SeqLemmas

  /**
   * f is Keccak-f[1600] on 200-byte states.  The sponge methods are proved
   * against the reference sponge for a ghost f with this property rather
   * than for KeccakP itself, so that their proofs never look inside the
   * permutation.
   */
  ghost predicate IsKeccakF(f: seq<bv8> -> seq<bv8>)
  {
    KeepsLength(f) && forall b {:trigger KeccakP(b)} :: f(b) == KeccakP(b)
  }

  lemma KeccakPIsKeccakF()
    ensures IsKeccakF(KeccakP)
  {
    KeccakPKeepsLength();
  }

  /**
   * KeccakF1600(s), stated as s := f(s).  calls counts the calls of
   * KeccakF1600 made so far; every call through here adds one.
   */
  method PermuteState(s: array<bv8>, ghost f: seq<bv8> -> seq<bv8>, ghost calls: nat) returns (ghost calls': nat)
    requires s.Length == StateBytes && IsKeccakF(f)
    modifies s
    ensures s[..] == f(old(s[..]))
    ensures calls' == calls + 1
  {
    calls' := calls + 1;
    ghost var S := s[..];
    KeccakF1600(s);
    assert KeccakP(S) == Permute(S);
  }

  /** FOR(i,200) s[i]=0: the state starts at zero. */
  method ZeroFill(s: array<bv8>)
    requires s.Length == StateBytes
    modifies s
    ensures s[..] == ZeroState()
  {
    var i: nat := 0;
    while i < StateBytes
      invariant 0 <= i <= StateBytes
      invariant forall k :: 0 <= k < i ==> s[k] == 0
    {
      s[i] := 0;
      i := i + 1;
    }
  }

  /** FOR(i,b) s[i]^=in[i], with in at offset pos of inp: only s[0..b) changes. */
  method XorIn(s: array<bv8>, inp: seq<bv8>, pos: nat, b: nat)
    requires s.Length == StateBytes && b <= StateBytes && pos + b <= |inp|
    modifies s
    ensures s[..] == XorInto(old(s[..]), inp[pos..pos + b])
  {
    ghost var S := s[..];
    ghost var t := inp[pos..pos + b];
    var i: nat := 0;
    while i < b
      invariant 0 <= i <= b
      invariant forall k :: 0 <= k < i ==> s[k] == S[k] ^ t[k]
      invariant forall k :: i <= k < StateBytes ==> s[k] == S[k]
    {
      s[i] := s[i] ^ inp[pos + i];
      i := i + 1;
    }
    XorIntoIs(S, t, s[..]);
  }

  /**
   * The absorbing loop of Keccak over the first inLen bytes of inp: full
   * blocks of R bytes are XORed in and permuted, one call of KeccakF1600
   * each (also when the input ends on a block boundary); the last b < R
   * bytes are XORed in and left unpermuted.
   */
  method Absorb(s: array<bv8>, inp: seq<bv8>, inLen: nat, R: nat, ghost f: seq<bv8> -> seq<bv8>)
    returns (b: nat, ghost calls: nat)
    requires s.Length == StateBytes && 0 < R <= StateBytes && inLen <= |inp| && IsKeccakF(f)
    modifies s
    ensures b == inLen % R && b < R && calls == inLen / R && IsMultiple(inLen - b, R)
    ensures s[..] == XorInto(AbsorbBlocks(f, old(s[..]), inp[..inLen - b], R), inp[inLen - b..inLen])
  {
    ghost var S := s[..];
    var rem: nat, pos: nat := inLen, 0;
    ghost var full: nat := 0;
    b, calls := 0, 0;
    XorIntoEmptySlice(S, inp, 0);
    while rem > 0
      invariant pos + rem == inLen && full + b == pos && b < R
      invariant rem > 0 ==> b == 0
      invariant IsMultiple(full, R) && calls == BlockCount(full, R)
      invariant s[..] == XorInto(AbsorbBlocks(f, S, inp[..full], R), inp[full..pos])
    {
      b, pos, rem, calls, full := AbsorbStep(s, inp, pos, rem, R, S, f, calls);
    }
    MultiplePlusRem(full, b, R);
  }

  /**
   * One pass of the absorbing loop from the block boundary pos, with rem > 0
   * input bytes left: b = min(rem, R) bytes are XORed in, and when they are
   * a full block the state is permuted (and counted) and b is reset to 0.
   * full is the input consumed by whole blocks.
   */
  method AbsorbStep(s: array<bv8>, inp: seq<bv8>, pos: nat, rem: nat, R: nat, ghost S: seq<bv8>,
                    ghost f: seq<bv8> -> seq<bv8>, ghost calls: nat)
    returns (b: nat, pos': nat, rem': nat, ghost calls': nat, ghost full: nat)
    requires s.Length == StateBytes && |S| == StateBytes && 0 < R <= StateBytes && IsKeccakF(f)
    requires 0 < rem && pos + rem <= |inp| && IsMultiple(pos, R) && calls == BlockCount(pos, R)
    requires s[..] == XorInto(AbsorbBlocks(f, S, inp[..pos], R), inp[pos..pos])
    modifies s
    ensures pos' + rem' == pos + rem && rem' < rem && full + b == pos' && b < R
    ensures rem' > 0 ==> b == 0
    ensures IsMultiple(full, R) && calls' == BlockCount(full, R)
    ensures s[..] == XorInto(AbsorbBlocks(f, S, inp[..full], R), inp[full..pos'])
  {
    b := if rem < R then rem else R;
    MultipleNext(pos, R);
    XorIntoEmptySlice(AbsorbBlocks(f, S, inp[..pos], R), inp, pos);
    XorIn(s, inp, pos, b);
    pos', rem', calls', full := pos + b, rem - b, calls, pos;
    if b == R {
      calls' := PermuteState(s, f, calls);
      AbsorbPrefixNext(f, S, inp, pos, R);
      XorIntoEmptySlice(AbsorbBlocks(f, S, inp[..pos + R], R), inp, pos + R);
      b, full := 0, pos';
    }
  }

  /**
   * The padding of Keccak: the suffix is XORed into s[b], 0x80 into
   * s[R-1], and the state is permuted; when the suffix has bit 7 set and
   * b = R-1 the state is permuted in between as well.
   */
  method PadAndPermute(s: array<bv8>, b: nat, R: nat, sfx: bv8, ghost f: seq<bv8> -> seq<bv8>, ghost calls: nat)
    returns (ghost calls': nat)
    requires s.Length == StateBytes && b < R <= StateBytes && IsKeccakF(f)
    modifies s
    ensures s[..] == PadState(f, old(s[..]), b, R, sfx)
    ensures calls' == calls + if ExtraPadBlock(b, R, sfx) then 2 else 1
  {
    ghost var X := s[..];
    XorByte(s, b, sfx);
    ghost var X1 := s[..];
    calls' := calls;
    if sfx & 0x80 != 0 && b == R - 1 {
      calls' := PermuteState(s, f, calls');
    }
    ghost var X2 := s[..];
    assert X2 == if ExtraPadBlock(b, R, sfx) then f(X1) else X1;
    XorByte(s, R - 1, 0x80);
    calls' := PermuteState(s, f, calls');
  }

  /** s[i]^=v: only byte i changes. */
  method XorByte(s: array<bv8>, i: nat, v: bv8)
    requires i < s.Length
    modifies s
    ensures s[..] == XorAt(old(s[..]), i, v)
  {
    s[i] := s[i] ^ v;
  }

  /** FOR(i,b) out[i]=s[i], with out at offset o: only out[o..o+b) changes. */
  method CopyOut(s: array<bv8>, out: array<bv8>, o: nat, b: nat)
    requires s.Length == StateBytes && s != out && b <= StateBytes && o + b <= out.Length
    modifies out
    ensures out[..o + b] == old(out[..o]) + s[..b]
    ensures forall k :: o + b <= k < out.Length ==> out[k] == old(out[k])
  {
    var i: nat := 0;
    while i < b
      invariant 0 <= i <= b
      invariant forall k :: 0 <= k < o ==> out[k] == old(out[k])
      invariant forall k :: 0 <= k < i ==> out[o + k] == s[k]
      invariant forall k :: o + i <= k < out.Length ==> out[k] == old(out[k])
    {
      out[o + i] := s[i];
      i := i + 1;
    }
    assert out[..o + b] == old(out[..o]) + s[..b];
  }

  /**
   * The squeezing loop of Keccak: outLen bytes are copied out R at a time,
   * with a permutation between two blocks and none after the last.
   */
  method SqueezeOut(s: array<bv8>, R: nat, out: array<bv8>, outLen: nat, ghost f: seq<bv8> -> seq<bv8>,
                    ghost calls0: nat)
    returns (ghost calls: nat)
    requires s.Length == StateBytes && s != out && 0 < R <= StateBytes && outLen <= out.Length && IsKeccakF(f)
    modifies s, out
    ensures out[..outLen] == Squeeze(f, old(s[..]), outLen, R)
    ensures out[outLen..] == old(out[outLen..])
    ensures calls == calls0 + if outLen == 0 then 0 else (outLen - 1) / R
  {
    ghost var Z, O := Squeeze(f, s[..], outLen, R), out[..];
    var rem: nat, o: nat := outLen, 0;
    calls := calls0;
    while rem > 0
      invariant o + rem == outLen
      invariant out[..o] + Squeeze(f, s[..], rem, R) == Z
      invariant forall k :: o <= k < out.Length ==> out[k] == O[k]
      invariant calls + SqueezeCalls(rem, R) == calls0 + SqueezeCalls(outLen, R)
    {
      o, rem, calls := SqueezeStep(s, out, o, rem, R, f, Z, O, calls, calls0 + SqueezeCalls(outLen, R));
    }
    SqueezeCallsIsDiv(outLen, R);
    assert out[outLen..] == O[outLen..];
  }

  /**
   * One pass of the squeezing loop with rem > 0 bytes still to produce:
   * b = min(rem, R) bytes are copied to out[o..o+b), and the state is
   * permuted (and counted) when bytes remain after them.  Z is the whole
   * output, O the initial contents of out, and C the number of
   * permutations the loop makes.
   */
  method SqueezeStep(s: array<bv8>, out: array<bv8>, o: nat, rem: nat, R: nat, ghost f: seq<bv8> -> seq<bv8>,
                     ghost Z: seq<bv8>, ghost O: seq<bv8>, ghost calls: nat, ghost C: nat)
    returns (o': nat, rem': nat, ghost calls': nat)
    requires s.Length == StateBytes && s != out && 0 < R <= StateBytes && 0 < rem && o + rem <= out.Length
    requires IsKeccakF(f) && |O| == out.Length
    requires out[..o] + Squeeze(f, s[..], rem, R) == Z
    requires forall k :: o <= k < out.Length ==> out[k] == O[k]
    requires calls + SqueezeCalls(rem, R) == C
    modifies s, out
    ensures o' + rem' == o + rem && rem' < rem
    ensures out[..o'] + Squeeze(f, s[..], rem', R) == Z
    ensures forall k :: o' <= k < out.Length ==> out[k] == O[k]
    ensures calls' + SqueezeCalls(rem', R) == C
  {
    ghost var S := s[..];
    var b := if rem < R then rem else R;
    CopyOut(s, out, o, b);
    calls' := calls;
    if rem - b > 0 {
      calls' := PermuteState(s, f, calls);
    }
    AppendAssoc(old(out[..o]), S[..b], Squeeze(f, s[..], rem - b, R));
    o', rem' := o + b, rem - b;
  }

  /**
   * Keccak(r, c, in, inLen, sfx, out, outLen): the sponge with a rate of r/8
   * bytes over the first inLen bytes of inp, writing outLen bytes to out.
   * The capacity c is not used by the C function.
   */
  method Keccak(r: nat, c: nat, inp: seq<bv8>, inLen: nat, sfx: bv8, out: array<bv8>, outLen: nat,
                ghost f: seq<bv8> -> seq<bv8>)
    returns (ghost calls: nat)
    requires 0 < r / 8 <= StateBytes && inLen <= |inp| && outLen <= out.Length && IsKeccakF(f)
    modifies out
    ensures out[..outLen] == Sponge(f, inp[..inLen], r / 8, sfx, outLen)
    ensures out[outLen..] == old(out[outLen..])
    ensures calls == PermutationCalls(inLen, r / 8, sfx, outLen)
  {
    var s := new bv8[StateBytes];
    var R := r / 8;
    ghost var M := inp[..inLen];
    ZeroFill(s);
    var b, absorbed := Absorb(s, inp, inLen, R, f);
    ghost var P, T := inp[..inLen - b], inp[inLen - b..inLen];
    ghost var A := AbsorbBlocks(f, ZeroState(), P, R);
    var padded := PadAndPermute(s, b, R, sfx, f, absorbed);
    PadSteps(f, A, T, b, R, sfx);
    assert M == P + T;
    PaddedState(f, M, R, sfx, P, T);
    calls := SqueezeOut(s, R, out, outLen, f, padded);
    CallsAdd(inLen, R, sfx, outLen, b, absorbed, padded, calls);
  }

  /** The three call counts of Keccak add up to PermutationCalls. */
  lemma CallsAdd(n: nat, R: nat, sfx: bv8, outLen: nat, b: nat, absorbed: nat, padded: nat, calls: nat)
    requires 0 < R && b == n % R && absorbed == n / R
    requires padded == absorbed + if ExtraPadBlock(b, R, sfx) then 2 else 1
    requires calls == padded + if outLen == 0 then 0 else (outLen - 1) / R
    ensures calls == PermutationCalls(n, R, sfx, outLen)
  {
  }

  /** KECCAK_256: Keccak(1088, 512, in, inLen, 0x01, out, 32). */
  method Keccak256(inp: seq<bv8>, inLen: nat, out: array<bv8>) returns (ghost calls: nat)
    requires inLen <= |inp| && 32 <= out.Length
    modifies out
    ensures out[..32] == SpongeSpec.Keccak256(inp[..inLen])
    ensures out[32..] == old(out[32..])
    ensures calls == inLen / 136 + 1
  {
    assert 1088 / 8 == 136;
    KeccakPIsKeccakF();
    calls := Keccak(1088, 512, inp, inLen, 0x01, out, 32, KeccakP);
    Keccak256Calls(inLen);
  }
}
