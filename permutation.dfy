/**
 * KeccakF1600 of the C code: the 24 rounds of Keccak-f[1600] computed in
 * place on the 200-byte state through the lane accessors rL, wL and XL.
 * Each step of a round is a method that follows the loops of the code and
 * is proved to compute the step mapping of module KeccakSpec on the lanes;
 * the round loop is then proved to compute Permute.
 */
module Permutation {
  import opened KeccakState
  import opened RoundConstants
  import opened KeccakSpec
  import opened RhoPiWalk
  import opened SeqLemmas

  /** B with lane (x, y) replaced by v, once B' is known to agree with it lane by lane. */
  lemma UpdateLane(B: seq<bv64>, B': seq<bv64>, x: nat, y: nat, v: bv64)
    requires |B| == LaneCount && |B'| == LaneCount && x < 5 && y < 5
    requires B'[LaneIndex(x, y)] == v
    requires forall k :: 0 <= k < LaneCount && k != LaneIndex(x, y) ==> B'[k] == B[k]
    ensures B[LaneIndex(x, y) := v] == B'
  {
  }

  // ---------------------------------------------------------------- theta

  /**
   * The lanes of T in the columns before x and in column x above row y, the
   * lanes of A elsewhere: the state part way through the column loop.
   */
  ghost function ColumnsDone(A: seq<bv64>, T: seq<bv64>, x: nat, y: nat): (A': seq<bv64>)
    requires |A| == LaneCount && |T| == LaneCount && x <= 5 && y <= 5
    ensures |A'| == LaneCount
  {
    seq(LaneCount, k requires 0 <= k < LaneCount =>
      if k % 5 < x || (k % 5 == x && k < x + 5 * y) then T[k] else A[k])
  }

  lemma ColumnsDoneStart(A: seq<bv64>, T: seq<bv64>)
    requires |A| == LaneCount && |T| == LaneCount
    ensures ColumnsDone(A, T, 0, 0) == A
  {
  }

  lemma ColumnsDoneNextRow(A: seq<bv64>, T: seq<bv64>, x: nat, y: nat, v: bv64)
    requires |A| == LaneCount && |T| == LaneCount && x < 5 && y < 5
    requires v == T[LaneIndex(x, y)]
    ensures ColumnsDone(A, T, x, y)[LaneIndex(x, y)] == A[LaneIndex(x, y)]
    ensures ColumnsDone(A, T, x, y)[LaneIndex(x, y) := v] == ColumnsDone(A, T, x, y + 1)
  {
    UpdateLane(ColumnsDone(A, T, x, y), ColumnsDone(A, T, x, y + 1), x, y, v);
  }

  lemma ColumnsDoneNextColumn(A: seq<bv64>, T: seq<bv64>, x: nat)
    requires |A| == LaneCount && |T| == LaneCount && x < 5
    ensures ColumnsDone(A, T, x, 5) == ColumnsDone(A, T, x + 1, 0)
  {
  }

  lemma ColumnsDoneEnd(A: seq<bv64>, T: seq<bv64>)
    requires |A| == LaneCount && |T| == LaneCount
    ensures ColumnsDone(A, T, 5, 0) == T
  {
  }

  lemma ThetaLane(A: seq<bv64>, x: nat, y: nat)
    requires |A| == LaneCount && x < 5 && y < 5
    ensures Theta(A)[LaneIndex(x, y)] == A[LaneIndex(x, y)] ^ ThetaEffect(A, x)
  {
  }

  /** The XOR of five words, a name for the expression so that equal arguments give equal results by congruence. */
  function Xor5(a0: bv64, a1: bv64, a2: bv64, a3: bv64, a4: bv64): bv64
  {
    a0 ^ a1 ^ a2 ^ a3 ^ a4
  }

  lemma Xor5Is(a0: bv64, a1: bv64, a2: bv64, a3: bv64, a4: bv64)
    ensures a0 ^ a1 ^ a2 ^ a3 ^ a4 == Xor5(a0, a1, a2, a3, a4)
  {
  }

  lemma ColumnParityIsXor5(A: seq<bv64>, x: nat)
    requires |A| == LaneCount && x < 5
    ensures ColumnParity(A, x) == Xor5(A[x], A[x + 5], A[x + 10], A[x + 15], A[x + 20])
  {
  }

  /** D = C[x-1] ^ ROL(C[x+1], 1), named for the same reason as Xor5. */
  function ThetaMix(c4: bv64, c1: bv64): bv64
  {
    c4 ^ c1.RotateLeft(1)
  }

  lemma ThetaMixIs(c4: bv64, c1: bv64)
    ensures c4 ^ Rol(c1, 1) == ThetaMix(c4, c1)
  {
    RolIsRotation1(c1);
  }

  /** D = C[x-1] ^ ROL(C[x+1], 1) computed from the column parities is the theta effect of column x. */
  lemma ThetaEffectOf(A: seq<bv64>, x: nat, c4: bv64, c1: bv64, D: bv64)
    requires |A| == LaneCount && x < 5
    requires c4 == ColumnParity(A, (x + 4) % 5) && c1 == ColumnParity(A, (x + 1) % 5)
    requires D == c4 ^ Rol(c1, 1)
    ensures D == ThetaEffect(A, x)
  {
    ThetaMixIs(c4, c1);
    ThetaEffectIsMix(A, x);
  }

  lemma ThetaEffectIsMix(A: seq<bv64>, x: nat)
    requires |A| == LaneCount && x < 5
    ensures ThetaEffect(A, x) == ThetaMix(ColumnParity(A, (x + 4) % 5), ColumnParity(A, (x + 1) % 5))
  {
  }

  /** rL(x,0) ^ rL(x,1) ^ rL(x,2) ^ rL(x,3) ^ rL(x,4): the parity of column x. */
  method ReadColumnParity(s: array<bv8>, x: nat) returns (p: bv64)
    requires s.Length == StateBytes && x < 5
    ensures p == ColumnParity(Lanes(s[..]), x)
  {
    ghost var A := Lanes(s[..]);
    var l0 := ReadLane(s, x, 0);
    var l1 := ReadLane(s, x, 1);
    var l2 := ReadLane(s, x, 2);
    var l3 := ReadLane(s, x, 3);
    var l4 := ReadLane(s, x, 4);
    p := l0 ^ l1 ^ l2 ^ l3 ^ l4;
    Xor5Is(l0, l1, l2, l3, l4);
    ColumnParityIsXor5(A, x);
    assert LaneIndex(x, 0) == x && LaneIndex(x, 1) == x + 5 && LaneIndex(x, 2) == x + 10;
    assert LaneIndex(x, 3) == x + 15 && LaneIndex(x, 4) == x + 20;
  }

  /** Column x of theta(A) is column x of A XORed with D, for D the theta effect of column x. */
  lemma ThetaColumn(A: seq<bv64>, x: nat, D: bv64)
    requires |A| == LaneCount && x < 5 && D == ThetaEffect(A, x)
    ensures forall y :: 0 <= y < 5 ==> Theta(A)[LaneIndex(x, y)] == A[LaneIndex(x, y)] ^ D
  {
    forall y | 0 <= y < 5
      ensures Theta(A)[LaneIndex(x, y)] == A[LaneIndex(x, y)] ^ D
    {
      ThetaLane(A, x, y);
    }
  }

  /** FOR(x,5) C[x] = rL(x,0) ^ ... ^ rL(x,4): the five column parities. */
  method ColumnParities(s: array<bv8>) returns (C: array<bv64>)
    requires s.Length == StateBytes
    ensures fresh(C) && C.Length == 5
    ensures forall x :: 0 <= x < 5 ==> C[x] == ColumnParity(Lanes(s[..]), x)
  {
    ghost var A := Lanes(s[..]);
    C := new bv64[5];
    ghost var P: seq<bv64> := [];
    var x := 0;
    while x < 5
      invariant 0 <= x <= 5 && |P| == x
      invariant Lanes(s[..]) == A
      invariant C[..x] == P
      invariant forall x' :: 0 <= x' < x ==> P[x'] == ColumnParity(A, x')
    {
      var p := ReadColumnParity(s, x);
      C[x] := p;
      P := P + [p];
      x := x + 1;
    }
    assert C[..] == C[..5];
  }

  /**
   * FOR(y,5) XL(x,y,D): XOR D into the five lanes of column x, which takes
   * the state from ColumnsDone(A, T, x, 0) to ColumnsDone(A, T, x + 1, 0)
   * when T is A with D added to column x.
   */
  method XorColumn(s: array<bv8>, x: nat, D: bv64, ghost A: seq<bv64>, ghost T: seq<bv64>)
    requires s.Length == StateBytes && x < 5 && |A| == LaneCount && |T| == LaneCount
    requires forall y :: 0 <= y < 5 ==> T[LaneIndex(x, y)] == A[LaneIndex(x, y)] ^ D
    requires Lanes(s[..]) == ColumnsDone(A, T, x, 0)
    modifies s
    ensures Lanes(s[..]) == ColumnsDone(A, T, x + 1, 0)
  {
    var y := 0;
    while y < 5
      invariant 0 <= y <= 5
      invariant Lanes(s[..]) == ColumnsDone(A, T, x, y)
    {
      ColumnsDoneNextRow(A, T, x, y, T[LaneIndex(x, y)]);
      XorLane(s, x, y, D);
      y := y + 1;
    }
    ColumnsDoneNextColumn(A, T, x);
  }

  /** The pass of the theta loop for column x, with D its theta effect. */
  method ThetaColumnPass(s: array<bv8>, x: nat, D: bv64, ghost A: seq<bv64>)
    requires s.Length == StateBytes && x < 5 && |A| == LaneCount
    requires D == ThetaEffect(A, x)
    requires Lanes(s[..]) == ColumnsDone(A, Theta(A), x, 0)
    modifies s
    ensures Lanes(s[..]) == ColumnsDone(A, Theta(A), x + 1, 0)
  {
    ThetaColumn(A, x, D);
    XorColumn(s, x, D, A, Theta(A));
  }

  /**
   * The second loop of theta (line 40): with C holding the column parities
   * of A, XOR D = C[x-1] ^ ROL(C[x+1], 1) into every lane of column x.
   */
  method ApplyTheta(s: array<bv8>, C: array<bv64>, ghost A: seq<bv64>, ghost P: seq<bv64>)
    requires s.Length == StateBytes && C.Length == 5 && |A| == LaneCount
    requires C[..] == P && forall x :: 0 <= x < 5 ==> P[x] == ColumnParity(A, x)
    requires Lanes(s[..]) == A
    modifies s
    ensures Lanes(s[..]) == Theta(A)
  {
    ColumnsDoneStart(A, Theta(A));
    var x := 0;
    while x < 5
      invariant 0 <= x <= 5
      invariant C[..] == P
      invariant Lanes(s[..]) == ColumnsDone(A, Theta(A), x, 0)
    {
      var D := C[(x + 4) % 5] ^ Rol(C[(x + 1) % 5], 1);
      ThetaEffectOf(A, x, C[(x + 4) % 5], C[(x + 1) % 5], D);
      ThetaColumnPass(s, x, D, A);
      x := x + 1;
    }
    ColumnsDoneEnd(A, Theta(A));
  }

  /**
   * theta (lines 39-40): the five column parities are computed first, then
   * every lane of column x is XORed with D = C[x-1] ^ ROL(C[x+1], 1).
   */
  method Theta1600(s: array<bv8>)
    requires s.Length == StateBytes
    modifies s
    ensures Lanes(s[..]) == Theta(Lanes(old(s[..])))
  {
    ghost var A := Lanes(s[..]);
    var C := ColumnParities(s);
    ApplyTheta(s, C, A, C[..]);
  }

  // ---------------------------------------------------------------- rho and pi

  /** Where one step of the walk goes, and the rotation it applies (r += j+1; x, y = y, (2x+3y) % 5). */
  lemma WalkMove(j: nat, x: nat, y: nat, r: nat)
    requires j < 24 && x < 5 && y < 5 && LaneIndex(x, y) == WalkPos(j) && 2 * r == j * (j + 1)
    ensures LaneIndex(y, (2 * x + 3 * y) % 5) == WalkPos(j + 1)
    ensures 2 * (r + j + 1) == (j + 1) * (j + 2)
    ensures ((r + j + 1) % 64) as bv7 == RotAmount(j)
  {
    WalkStep(j, x, y);
    assert 2 * (r + j + 1) == (j + 1) * (j + 2);
    WalkRotation(j, r + j + 1);
  }

  /** Step j of the walk reads a lane that no earlier step has written, and stores its rotated source there. */
  lemma WalkNext(A: seq<bv64>, j: nat)
    requires |A| == LaneCount && j < 24
    ensures WalkState(A, j)[WalkPos(j + 1)] == A[WalkPos(j + 1)]
    ensures WalkState(A, j + 1) == WalkState(A, j)[WalkPos(j + 1) := RotatedLane(A, j)]
  {
    WalkStateLane(A, j, WalkPos(j + 1));
    StepOfWalk(j + 1);
  }

  /** The lane written at step j: the carried lane rotated by r mod 64 (ROL, line 28). */
  method RotateWalkLane(D: bv64, r: nat, ghost A: seq<bv64>, ghost j: nat) returns (l: bv64)
    requires |A| == LaneCount && j < 24
    requires D == A[WalkPos(j)] && (r % 64) as bv7 == RotAmount(j)
    ensures l == RotatedLane(A, j)
  {
    l := Rol(D, (r % 64) as bv7);
  }

  /**
   * One step of the walk of lines 41-42: move from lane (x, y) to
   * (y, (2x + 3y) mod 5), save that lane in C[0], overwrite it with the
   * carried lane D rotated by the next triangular number mod 64, and carry
   * the saved lane on.
   */
  method RhoPiStep(s: array<bv8>, x: nat, y: nat, r: nat, D: bv64, ghost A: seq<bv64>, j: nat)
    returns (x': nat, y': nat, r': nat, D': bv64)
    requires s.Length == StateBytes && |A| == LaneCount && j < 24 && x < 5 && y < 5
    requires LaneIndex(x, y) == WalkPos(j) && 2 * r == j * (j + 1)
    requires D == A[WalkPos(j)] && Lanes(s[..]) == WalkState(A, j)
    modifies s
    ensures x' < 5 && y' < 5 && LaneIndex(x', y') == WalkPos(j + 1)
    ensures 2 * r' == (j + 1) * (j + 2)
    ensures D' == A[WalkPos(j + 1)] && Lanes(s[..]) == WalkState(A, j + 1)
  {
    WalkMove(j, x, y, r);
    WalkNext(A, j);
    r' := r + j + 1;
    x', y' := y, (2 * x + 3 * y) % 5;
    D' := ReadLane(s, x', y');
    var l := RotateWalkLane(D, r', A, j);
    WriteLane(s, x', y', l);
  }

  /**
   * rho and pi (lines 41-42): starting from lane (1, 0), step j moves to the
   * next lane of the walk, saves it in C[0], overwrites it with the previous
   * lane rotated by r mod 64 where r is the (j+1)-th triangular number, and
   * carries the saved lane on.
   */
  method RhoPi1600(s: array<bv8>)
    requires s.Length == StateBytes
    modifies s
    ensures Lanes(s[..]) == Pi(Rho(Lanes(old(s[..]))))
  {
    ghost var A := Lanes(s[..]);
    var x: nat, y: nat, r: nat := 1, 0, 0;
    WalkStart();
    var D := ReadLane(s, x, y);
    var j := 0;
    while j < 24
      invariant 0 <= j <= 24 && x < 5 && y < 5
      invariant LaneIndex(x, y) == WalkPos(j)
      invariant 2 * r == j * (j + 1)
      invariant D == A[WalkPos(j)]
      invariant Lanes(s[..]) == WalkState(A, j)
    {
      x, y, r, D := RhoPiStep(s, x, y, r, D, A, j);
      j := j + 1;
    }
    WalkIsRhoPi(A);
  }

  // ---------------------------------------------------------------- chi

  /** The lanes of T before index n and the lanes of A from n on: the state part way through the row loop. */
  ghost function LanesDone(A: seq<bv64>, T: seq<bv64>, n: nat): (A': seq<bv64>)
    requires |A| == LaneCount && |T| == LaneCount && n <= LaneCount
    ensures |A'| == LaneCount
  {
    seq(LaneCount, k requires 0 <= k < LaneCount => if k < n then T[k] else A[k])
  }

  lemma LanesDoneStart(A: seq<bv64>, T: seq<bv64>)
    requires |A| == LaneCount && |T| == LaneCount
    ensures LanesDone(A, T, 0) == A
  {
  }

  lemma LanesDoneNext(A: seq<bv64>, T: seq<bv64>, n: nat, v: bv64)
    requires |A| == LaneCount && |T| == LaneCount && n < LaneCount
    requires v == T[n]
    ensures LanesDone(A, T, n)[n := v] == LanesDone(A, T, n + 1)
  {
  }

  lemma LanesDoneEnd(A: seq<bv64>, T: seq<bv64>)
    requires |A| == LaneCount && |T| == LaneCount
    ensures LanesDone(A, T, LaneCount) == T
  {
  }

  /** A ^ (~B & C), named so that equal arguments give equal results by congruence. */
  function ChiMix(a: bv64, b: bv64, c: bv64): bv64
  {
    a ^ ((!b) & c)
  }

  lemma ChiMixIs(a: bv64, b: bv64, c: bv64)
    ensures a ^ ((!b) & c) == ChiMix(a, b, c)
  {
  }

  lemma ChiLaneIsMix(A: seq<bv64>, x: nat, y: nat)
    requires |A| == LaneCount && x < 5 && y < 5
    ensures Chi(A)[LaneIndex(x, y)]
         == ChiMix(A[LaneIndex(x, y)], A[LaneIndex((x + 1) % 5, y)], A[LaneIndex((x + 2) % 5, y)])
  {
    assert Chi(A)[LaneIndex(x, y)] == ChiLane(A, x, y);
  }

  /** C[x] ^ (~C[x+1] & C[x+2]) over a snapshot C of row y of A is lane (x, y) of chi(A). */
  lemma ChiLaneOf(A: seq<bv64>, x: nat, y: nat, a: bv64, b: bv64, c: bv64, v: bv64)
    requires |A| == LaneCount && x < 5 && y < 5
    requires a == A[LaneIndex(x, y)] && b == A[LaneIndex((x + 1) % 5, y)] && c == A[LaneIndex((x + 2) % 5, y)]
    requires v == a ^ ((!b) & c)
    ensures v == Chi(A)[LaneIndex(x, y)]
  {
    ChiMixIs(a, b, c);
    ChiLaneIsMix(A, x, y);
  }

  /** FOR(x,5) C[x] = rL(x,y): a snapshot of row y. */
  method ReadRow(s: array<bv8>, y: nat) returns (C: array<bv64>)
    requires s.Length == StateBytes && y < 5
    ensures fresh(C) && C.Length == 5
    ensures forall x :: 0 <= x < 5 ==> C[x] == Lanes(s[..])[LaneIndex(x, y)]
  {
    ghost var A := Lanes(s[..]);
    C := new bv64[5];
    ghost var P: seq<bv64> := [];
    var x := 0;
    while x < 5
      invariant 0 <= x <= 5 && |P| == x
      invariant Lanes(s[..]) == A
      invariant C[..x] == P
      invariant forall x' :: 0 <= x' < x ==> P[x'] == A[LaneIndex(x', y)]
    {
      var l := ReadLane(s, x, y);
      C[x] := l;
      P := P + [l];
      x := x + 1;
    }
    assert C[..] == C[..5];
  }

  /** wL(x,y, C[x] ^ (~C[x+1] & C[x+2])) for the snapshot words a, b, c of lanes x, x+1, x+2 of row y of A. */
  method WriteChiLane(s: array<bv8>, x: nat, y: nat, a: bv64, b: bv64, c: bv64, ghost A: seq<bv64>)
    requires s.Length == StateBytes && x < 5 && y < 5 && |A| == LaneCount
    requires a == A[LaneIndex(x, y)] && b == A[LaneIndex((x + 1) % 5, y)] && c == A[LaneIndex((x + 2) % 5, y)]
    requires Lanes(s[..]) == LanesDone(A, Chi(A), LaneIndex(x, y))
    modifies s
    ensures Lanes(s[..]) == LanesDone(A, Chi(A), LaneIndex(x, y) + 1)
  {
    var v := a ^ ((!b) & c);
    ChiLaneOf(A, x, y, a, b, c, v);
    LanesDoneNext(A, Chi(A), LaneIndex(x, y), v);
    WriteLane(s, x, y, v);
  }

  /**
   * FOR(x,5) wL(x,y, C[x] ^ (~C[x+1] & C[x+2])): with C a snapshot of row y
   * of A, overwrite row y with row y of chi(A).  The writes never feed back
   * into C, so lane (x+1, y) is read from the snapshot even after it is
   * overwritten.
   */
  method WriteChiRow(s: array<bv8>, C: array<bv64>, y: nat, ghost A: seq<bv64>, ghost P: seq<bv64>)
    requires s.Length == StateBytes && C.Length == 5 && y < 5 && |A| == LaneCount
    requires C[..] == P && forall x :: 0 <= x < 5 ==> P[x] == A[LaneIndex(x, y)]
    requires Lanes(s[..]) == LanesDone(A, Chi(A), 5 * y)
    modifies s
    ensures Lanes(s[..]) == LanesDone(A, Chi(A), 5 * y + 5)
  {
    var x := 0;
    while x < 5
      invariant 0 <= x <= 5
      invariant C[..] == P
      invariant Lanes(s[..]) == LanesDone(A, Chi(A), LaneIndex(0, y) + x)
    {
      WriteChiLane(s, x, y, C[x], C[(x + 1) % 5], C[(x + 2) % 5], A);
      x := x + 1;
    }
  }

  /** One pass of the chi loop (line 43): snapshot row y, then overwrite it. */
  method ChiRow(s: array<bv8>, y: nat, ghost A: seq<bv64>)
    requires s.Length == StateBytes && y < 5 && |A| == LaneCount
    requires Lanes(s[..]) == LanesDone(A, Chi(A), 5 * y)
    modifies s
    ensures Lanes(s[..]) == LanesDone(A, Chi(A), 5 * y + 5)
  {
    var C := ReadRow(s, y);
    WriteChiRow(s, C, y, A, C[..]);
  }

  /** chi (line 43), row by row. */
  method Chi1600(s: array<bv8>)
    requires s.Length == StateBytes
    modifies s
    ensures Lanes(s[..]) == Chi(Lanes(old(s[..])))
  {
    ghost var A := Lanes(s[..]);
    LanesDoneStart(A, Chi(A));
    var y := 0;
    while y < 5
      invariant 0 <= y <= 5
      invariant Lanes(s[..]) == LanesDone(A, Chi(A), 5 * y)
    {
      ChiRow(s, y, A);
      y := y + 1;
    }
    LanesDoneEnd(A, Chi(A));
  }

  // ---------------------------------------------------------------- iota

  lemma XorZero(a: bv64)
    ensures a ^ 0 == a
  {
  }

  lemma XorAssoc(a: bv64, b: bv64, c: bv64)
    ensures (a ^ b) ^ c == a ^ (b ^ c)
  {
  }

  /** (u64)1 << ((1 << j) - 1), the word with only bit 2^j - 1 set. */
  method ShiftedOne(j: nat) returns (b: bv64)
    requires j < 7
    ensures b == IotaBit(j)
  {
    IotaBitIsShift(j);
    b := (1 as bv64) << (Pow2(j) - 1);
  }

  /** XL(0,0,b) on a state whose lane (0, 0) holds W. */
  method XorOrigin(s: array<bv8>, b: bv64, ghost A: seq<bv64>, ghost W: bv64)
    requires s.Length == StateBytes && |A| == LaneCount
    requires Lanes(s[..]) == A[0 := W]
    modifies s
    ensures Lanes(s[..]) == A[0 := W ^ b]
  {
    XorLane(s, 0, 0, b);
    UpdateTwice(A, 0, W, W ^ b);
  }

  /**
   * One pass of the iota loop (line 44): step the register with LFSR86540
   * and, when it returns 1, XOR (u64)1 << ((1 << j) - 1) into lane (0, 0).
   * Call j of round ir is call 7*ir + j of the register, whose bit is
   * rc(j + 7*ir), so the lane gains bit j of the round constant.
   */
  method IotaStep(s: array<bv8>, ir: nat, j: nat, R: bv8, ghost n: nat, ghost A: seq<bv64>, ghost W: bv64)
    returns (R': bv8, ghost W': bv64)
    requires s.Length == StateBytes && |A| == LaneCount && ir < 24 && j < 7
    requires n == j + 7 * ir && R == LfsrState(n)
    requires W == IotaPartial(A[0], ir, j) && Lanes(s[..]) == A[0 := W]
    modifies s
    ensures R' == LfsrState(n + 1)
    ensures W' == IotaPartial(A[0], ir, j + 1) && Lanes(s[..]) == A[0 := W']
  {
    var step := Lfsr86540(R);
    R' := step.0;
    LfsrCall(ir, j, n, R);
    if step.1 {
      var b := ShiftedOne(j);
      XorOrigin(s, b, A, W);
      W' := W ^ b;
    } else {
      W' := W;
      XorZero(W);
    }
  }

  /** Lane (0, 0) after the first j passes of the iota loop of round ir, from a. */
  ghost function IotaPartial(a: bv64, ir: nat, j: nat): bv64
    requires j <= 7
  {
    if j == 0 then a else IotaPartial(a, ir, j - 1) ^ RoundBit(ir, j - 1)
  }

  /** The first j passes XOR the bits of the round constant below j into the lane. */
  lemma {:induction false} IotaPartialIsXor(a: bv64, ir: nat, j: nat)
    requires j <= 7
    ensures IotaPartial(a, ir, j) == a ^ RoundConstantUpTo(ir, j)
  {
    if j == 0 {
      XorZero(a);
    } else {
      IotaPartialIsXor(a, ir, j - 1);
      XorAssoc(a, RoundConstantUpTo(ir, j - 1), RoundBit(ir, j - 1));
    }
  }

  /**
   * The loop FOR(j,7) of line 44: the seven calls of LFSR86540 for round
   * ir, which leave lane (0, 0) XORed with all seven bits of the round
   * constant.
   */
  method IotaLoop(s: array<bv8>, ir: nat, R: bv8, ghost A: seq<bv64>) returns (R': bv8, ghost W: bv64)
    requires s.Length == StateBytes && ir < 24 && |A| == LaneCount
    requires R == LfsrState(7 * ir) && Lanes(s[..]) == A
    modifies s
    ensures R' == LfsrState(7 + 7 * ir)
    ensures W == IotaPartial(A[0], ir, 7) && Lanes(s[..]) == A[0 := W]
  {
    W := A[0];
    UpdateSame(A, 0);
    R' := R;
    ghost var n := 7 * ir;
    var j := 0;
    while j < 7
      invariant 0 <= j <= 7 && n == j + 7 * ir
      invariant R' == LfsrState(n)
      invariant W == IotaPartial(A[0], ir, j) && Lanes(s[..]) == A[0 := W]
    {
      R', W := IotaStep(s, ir, j, R', n, A, W);
      j, n := j + 1, n + 1;
    }
  }

  /**
   * iota (line 44): seven calls of LFSR86540 on the register R carried
   * across rounds add the round constant of round ir to lane (0, 0).
   */
  method Iota1600(s: array<bv8>, ir: nat, R: bv8) returns (R': bv8)
    requires s.Length == StateBytes && ir < 24
    requires R == LfsrState(7 * ir)
    modifies s
    ensures R' == LfsrState(7 * (ir + 1))
    ensures Lanes(s[..]) == Iota(Lanes(old(s[..])), ir)
  {
    ghost var A := Lanes(s[..]);
    ghost var W;
    R', W := IotaLoop(s, ir, R, A);
    IotaPartialIsXor(A[0], ir, 7);
    assert 7 + 7 * ir == 7 * (ir + 1);
  }

  // ---------------------------------------------------------------- rounds

  /** One round: theta, rho and pi, chi, iota, as in the body of the round loop (lines 39-44). */
  method Round1600(s: array<bv8>, ir: nat, R: bv8) returns (R': bv8)
    requires s.Length == StateBytes && ir < 24
    requires R == LfsrState(7 * ir)
    modifies s
    ensures R' == LfsrState(7 * (ir + 1))
    ensures Lanes(s[..]) == Round(Lanes(old(s[..])), ir)
  {
    Theta1600(s);
    RhoPi1600(s);
    Chi1600(s);
    R' := Iota1600(s, ir, R);
  }

  /**
   * KeccakF1600 (lines 36-46): 24 rounds on the byte state, with the round
   * constant register R starting at 0x01.  The bytes left in s are the
   * bytes of Keccak-f[1600] applied to the lanes of the old state.
   */
  method KeccakF1600(s: array<bv8>)
    requires s.Length == StateBytes
    modifies s
    ensures s[..] == Permute(old(s[..]))
  {
    ghost var A := Lanes(s[..]);
    var R: bv8 := 0x01;
    var i := 0;
    while i < 24
      invariant 0 <= i <= 24
      invariant R == LfsrState(7 * i)
      invariant Lanes(s[..]) == Rounds(A, i)
    {
      R := Round1600(s, i, R);
      i := i + 1;
    }
    BytesOfLanes(s[..]);
  }
}
