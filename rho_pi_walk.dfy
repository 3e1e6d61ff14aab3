/**
 * The fused rho and pi step of the C code.  Instead of computing rho and
 * then pi, the code walks the lanes along the orbit (x, y) -> (y, (2x + 3y)
 * mod 5) starting from (1, 0): at step t = 0..23 it moves the lane at
 * position t of the walk, rotated left by (t+1)(t+2)/2 mod 64, to position
 * t + 1, keeping the displaced lane for the next step.  This module fixes the
 * walk as tables, proves their properties, and proves that the walk computes
 * pi(rho(A)) of FIPS 202.
 */
module RhoPiWalk {
  import opened KeccakState
  import opened KeccakSpec

  /** The lane index x + 5*y at position t of the walk; position 24 is position 0 again. */
  function WalkPos(t: nat): (k: nat)
    requires t <= 24
    ensures k < LaneCount
  {
    if t == 0 then 1 else if t == 1 then 10 else if t == 2 then 7 else if t == 3 then 11 else if t == 4 then 17 else if t == 5 then 18
    else if t == 6 then 3 else if t == 7 then 5 else if t == 8 then 16 else if t == 9 then 8 else if t == 10 then 21 else if t == 11 then 24
    else if t == 12 then 4 else if t == 13 then 15 else if t == 14 then 23 else if t == 15 then 19 else if t == 16 then 13 else if t == 17 then 12
    else if t == 18 then 2 else if t == 19 then 20 else if t == 20 then 14 else if t == 21 then 22 else if t == 22 then 9 else if t == 23 then 6
    else 1
  }

  /** The step t that writes lane k, that is WalkPos(t + 1) == k; 24 for lane 0, which no step writes. */
  function StepOf(k: nat): (t: nat)
    requires k < LaneCount
    ensures t <= 24
  {
    if k == 0 then 24 else if k == 1 then 23 else if k == 2 then 17 else if k == 3 then 5 else if k == 4 then 11 else if k == 5 then 6
    else if k == 6 then 22 else if k == 7 then 1 else if k == 8 then 8 else if k == 9 then 21 else if k == 10 then 0 else if k == 11 then 2
    else if k == 12 then 16 else if k == 13 then 15 else if k == 14 then 19 else if k == 15 then 12 else if k == 16 then 7 else if k == 17 then 3
    else if k == 18 then 4 else if k == 19 then 14 else if k == 20 then 18 else if k == 21 then 9 else if k == 22 then 20 else if k == 23 then 13
    else 10
  }

  /** The rotation of step t: (t+1)(t+2)/2 mod 64. */
  function RotAmount(t: nat): (o: bv7)
    requires t < 24
    ensures 0 < o < 64
  {
    if t == 0 then 1 else if t == 1 then 3 else if t == 2 then 6 else if t == 3 then 10 else if t == 4 then 15 else if t == 5 then 21
    else if t == 6 then 28 else if t == 7 then 36 else if t == 8 then 45 else if t == 9 then 55 else if t == 10 then 2 else if t == 11 then 14
    else if t == 12 then 27 else if t == 13 then 41 else if t == 14 then 56 else if t == 15 then 8 else if t == 16 then 25 else if t == 17 then 43
    else if t == 18 then 62 else if t == 19 then 18 else if t == 20 then 39 else if t == 21 then 61 else if t == 22 then 20
    else 44
  }

  /** The walk starts at lane (1, 0). */
  lemma WalkStart()
    ensures WalkPos(0) == LaneIndex(1, 0)
  {
  }

  /** Each step of the walk is the move x, y := y, (2x + 3y) mod 5 of the code. */
  lemma WalkStep(t: nat, x: nat, y: nat)
    requires t < 24 && x < 5 && y < 5 && LaneIndex(x, y) == WalkPos(t)
    ensures LaneIndex(y, (2 * x + 3 * y) % 5) == WalkPos(t + 1)
  {
  }

  /** Step t - 1 writes lane WalkPos(t), never lane (0, 0). */
  lemma StepOfWalk(t: nat)
    requires 1 <= t <= 24
    ensures WalkPos(t) != 0 && StepOf(WalkPos(t)) == t - 1
  {
  }

  /** Every lane other than (0, 0) is written by step StepOf(k). */
  lemma WalkOfStep(k: nat)
    requires 1 <= k < LaneCount
    ensures StepOf(k) < 24 && WalkPos(StepOf(k) + 1) == k
  {
  }

  /** The 24 steps write each lane other than (0, 0) exactly once. */
  lemma WalkWritesEachLaneOnce(t1: nat, t2: nat)
    requires 1 <= t1 <= 24 && 1 <= t2 <= 24 && WalkPos(t1) == WalkPos(t2)
    ensures t1 == t2
  {
    StepOfWalk(t1);
    StepOfWalk(t2);
  }

  /** The walk moves each lane to where pi puts it: WalkPos(t) is the pi source of WalkPos(t + 1). */
  lemma WalkFollowsPi(t: nat)
    requires t < 24
    ensures PiSource(WalkPos(t + 1)) == WalkPos(t)
  {
    if t < 6 {
      WalkFollowsPi0(t);
    } else if t < 12 {
      WalkFollowsPi1(t);
    } else if t < 18 {
      WalkFollowsPi2(t);
    } else {
      WalkFollowsPi3(t);
    }
  }

  lemma PiSourceAlongWalk0()
    ensures PiSource(10) == 1
    ensures PiSource(7) == 10
    ensures PiSource(11) == 7
    ensures PiSource(17) == 11
    ensures PiSource(18) == 17
    ensures PiSource(3) == 18
  {
  }

  lemma WalkFollowsPi0(t: nat)
    requires 0 <= t < 6
    ensures PiSource(WalkPos(t + 1)) == WalkPos(t)
  {
    PiSourceAlongWalk0();
    if t == 0 {
      assert WalkPos(t) == 1 && WalkPos(t + 1) == 10;
    } else if t == 1 {
      assert WalkPos(t) == 10 && WalkPos(t + 1) == 7;
    } else if t == 2 {
      assert WalkPos(t) == 7 && WalkPos(t + 1) == 11;
    } else if t == 3 {
      assert WalkPos(t) == 11 && WalkPos(t + 1) == 17;
    } else if t == 4 {
      assert WalkPos(t) == 17 && WalkPos(t + 1) == 18;
    } else {
      assert WalkPos(t) == 18 && WalkPos(t + 1) == 3;
    }
  }

  lemma PiSourceAlongWalk1()
    ensures PiSource(5) == 3
    ensures PiSource(16) == 5
    ensures PiSource(8) == 16
    ensures PiSource(21) == 8
    ensures PiSource(24) == 21
    ensures PiSource(4) == 24
  {
  }

  lemma WalkFollowsPi1(t: nat)
    requires 6 <= t < 12
    ensures PiSource(WalkPos(t + 1)) == WalkPos(t)
  {
    PiSourceAlongWalk1();
    if t == 6 {
      assert WalkPos(t) == 3 && WalkPos(t + 1) == 5;
    } else if t == 7 {
      assert WalkPos(t) == 5 && WalkPos(t + 1) == 16;
    } else if t == 8 {
      assert WalkPos(t) == 16 && WalkPos(t + 1) == 8;
    } else if t == 9 {
      assert WalkPos(t) == 8 && WalkPos(t + 1) == 21;
    } else if t == 10 {
      assert WalkPos(t) == 21 && WalkPos(t + 1) == 24;
    } else {
      assert WalkPos(t) == 24 && WalkPos(t + 1) == 4;
    }
  }

  lemma PiSourceAlongWalk2()
    ensures PiSource(15) == 4
    ensures PiSource(23) == 15
    ensures PiSource(19) == 23
    ensures PiSource(13) == 19
    ensures PiSource(12) == 13
    ensures PiSource(2) == 12
  {
  }

  lemma WalkFollowsPi2(t: nat)
    requires 12 <= t < 18
    ensures PiSource(WalkPos(t + 1)) == WalkPos(t)
  {
    PiSourceAlongWalk2();
    if t == 12 {
      assert WalkPos(t) == 4 && WalkPos(t + 1) == 15;
    } else if t == 13 {
      assert WalkPos(t) == 15 && WalkPos(t + 1) == 23;
    } else if t == 14 {
      assert WalkPos(t) == 23 && WalkPos(t + 1) == 19;
    } else if t == 15 {
      assert WalkPos(t) == 19 && WalkPos(t + 1) == 13;
    } else if t == 16 {
      assert WalkPos(t) == 13 && WalkPos(t + 1) == 12;
    } else {
      assert WalkPos(t) == 12 && WalkPos(t + 1) == 2;
    }
  }

  lemma PiSourceAlongWalk3()
    ensures PiSource(20) == 2
    ensures PiSource(14) == 20
    ensures PiSource(22) == 14
    ensures PiSource(9) == 22
    ensures PiSource(6) == 9
    ensures PiSource(1) == 6
  {
  }

  lemma WalkFollowsPi3(t: nat)
    requires 18 <= t < 24
    ensures PiSource(WalkPos(t + 1)) == WalkPos(t)
  {
    PiSourceAlongWalk3();
    if t == 18 {
      assert WalkPos(t) == 2 && WalkPos(t + 1) == 20;
    } else if t == 19 {
      assert WalkPos(t) == 20 && WalkPos(t + 1) == 14;
    } else if t == 20 {
      assert WalkPos(t) == 14 && WalkPos(t + 1) == 22;
    } else if t == 21 {
      assert WalkPos(t) == 22 && WalkPos(t + 1) == 9;
    } else if t == 22 {
      assert WalkPos(t) == 9 && WalkPos(t + 1) == 6;
    } else {
      assert WalkPos(t) == 6 && WalkPos(t + 1) == 1;
    }
  }

  /** The offsets of Table 2 are the triangular numbers along the walk (FIPS 202 Algorithm 2). */
  lemma WalkOffsetsAreTable2(t: nat)
    requires t < 24
    ensures 2 * RhoOffset(WalkPos(t)) == (t + 1) * (t + 2)
    ensures RotAmount(t) as int == RhoOffset(WalkPos(t)) % 64
  {
    if t == 0 {
      assert WalkPos(t) == 1 && RotAmount(t) == 1 && RhoOffset(1) == 1;
    } else if t == 1 {
      assert WalkPos(t) == 10 && RotAmount(t) == 3 && RhoOffset(10) == 3;
    } else if t == 2 {
      assert WalkPos(t) == 7 && RotAmount(t) == 6 && RhoOffset(7) == 6;
    } else if t == 3 {
      assert WalkPos(t) == 11 && RotAmount(t) == 10 && RhoOffset(11) == 10;
    } else if t == 4 {
      assert WalkPos(t) == 17 && RotAmount(t) == 15 && RhoOffset(17) == 15;
    } else if t == 5 {
      assert WalkPos(t) == 18 && RotAmount(t) == 21 && RhoOffset(18) == 21;
    } else if t == 6 {
      assert WalkPos(t) == 3 && RotAmount(t) == 28 && RhoOffset(3) == 28;
    } else if t == 7 {
      assert WalkPos(t) == 5 && RotAmount(t) == 36 && RhoOffset(5) == 36;
    } else if t == 8 {
      assert WalkPos(t) == 16 && RotAmount(t) == 45 && RhoOffset(16) == 45;
    } else if t == 9 {
      assert WalkPos(t) == 8 && RotAmount(t) == 55 && RhoOffset(8) == 55;
    } else if t == 10 {
      assert WalkPos(t) == 21 && RotAmount(t) == 2 && RhoOffset(21) == 66;
    } else if t == 11 {
      assert WalkPos(t) == 24 && RotAmount(t) == 14 && RhoOffset(24) == 78;
    } else if t == 12 {
      assert WalkPos(t) == 4 && RotAmount(t) == 27 && RhoOffset(4) == 91;
    } else if t == 13 {
      assert WalkPos(t) == 15 && RotAmount(t) == 41 && RhoOffset(15) == 105;
    } else if t == 14 {
      assert WalkPos(t) == 23 && RotAmount(t) == 56 && RhoOffset(23) == 120;
    } else if t == 15 {
      assert WalkPos(t) == 19 && RotAmount(t) == 8 && RhoOffset(19) == 136;
    } else if t == 16 {
      assert WalkPos(t) == 13 && RotAmount(t) == 25 && RhoOffset(13) == 153;
    } else if t == 17 {
      assert WalkPos(t) == 12 && RotAmount(t) == 43 && RhoOffset(12) == 171;
    } else if t == 18 {
      assert WalkPos(t) == 2 && RotAmount(t) == 62 && RhoOffset(2) == 190;
    } else if t == 19 {
      assert WalkPos(t) == 20 && RotAmount(t) == 18 && RhoOffset(20) == 210;
    } else if t == 20 {
      assert WalkPos(t) == 14 && RotAmount(t) == 39 && RhoOffset(14) == 231;
    } else if t == 21 {
      assert WalkPos(t) == 22 && RotAmount(t) == 61 && RhoOffset(22) == 253;
    } else if t == 22 {
      assert WalkPos(t) == 9 && RotAmount(t) == 20 && RhoOffset(9) == 276;
    } else {
      assert WalkPos(t) == 6 && RotAmount(t) == 44 && RhoOffset(6) == 300;
    }
  }

  lemma WalkRotation0(t: nat, r: nat)
    requires 0 <= t < 6 && 2 * r == (t + 1) * (t + 2)
    ensures (r % 64) as bv7 == RotAmount(t)
  {
    if t == 0 {
      assert 2 * r == 1 * 2;
      assert RotAmount(t) == 1;
    } else if t == 1 {
      assert 2 * r == 2 * 3;
      assert RotAmount(t) == 3;
    } else if t == 2 {
      assert 2 * r == 3 * 4;
      assert RotAmount(t) == 6;
    } else if t == 3 {
      assert 2 * r == 4 * 5;
      assert RotAmount(t) == 10;
    } else if t == 4 {
      assert 2 * r == 5 * 6;
      assert RotAmount(t) == 15;
    } else {
      assert 2 * r == 6 * 7;
      assert RotAmount(t) == 21;
    }
  }

  lemma WalkRotation1(t: nat, r: nat)
    requires 6 <= t < 12 && 2 * r == (t + 1) * (t + 2)
    ensures (r % 64) as bv7 == RotAmount(t)
  {
    if t == 6 {
      assert 2 * r == 7 * 8;
      assert RotAmount(t) == 28;
    } else if t == 7 {
      assert 2 * r == 8 * 9;
      assert RotAmount(t) == 36;
    } else if t == 8 {
      assert 2 * r == 9 * 10;
      assert RotAmount(t) == 45;
    } else if t == 9 {
      assert 2 * r == 10 * 11;
      assert RotAmount(t) == 55;
    } else if t == 10 {
      assert 2 * r == 11 * 12;
      assert RotAmount(t) == 2;
    } else {
      assert 2 * r == 12 * 13;
      assert RotAmount(t) == 14;
    }
  }

  lemma WalkRotation2(t: nat, r: nat)
    requires 12 <= t < 18 && 2 * r == (t + 1) * (t + 2)
    ensures (r % 64) as bv7 == RotAmount(t)
  {
    if t == 12 {
      assert 2 * r == 13 * 14;
      assert RotAmount(t) == 27;
    } else if t == 13 {
      assert 2 * r == 14 * 15;
      assert RotAmount(t) == 41;
    } else if t == 14 {
      assert 2 * r == 15 * 16;
      assert RotAmount(t) == 56;
    } else if t == 15 {
      assert 2 * r == 16 * 17;
      assert RotAmount(t) == 8;
    } else if t == 16 {
      assert 2 * r == 17 * 18;
      assert RotAmount(t) == 25;
    } else {
      assert 2 * r == 18 * 19;
      assert RotAmount(t) == 43;
    }
  }

  lemma WalkRotation3(t: nat, r: nat)
    requires 18 <= t < 24 && 2 * r == (t + 1) * (t + 2)
    ensures (r % 64) as bv7 == RotAmount(t)
  {
    if t == 18 {
      assert 2 * r == 19 * 20;
      assert RotAmount(t) == 62;
    } else if t == 19 {
      assert 2 * r == 20 * 21;
      assert RotAmount(t) == 18;
    } else if t == 20 {
      assert 2 * r == 21 * 22;
      assert RotAmount(t) == 39;
    } else if t == 21 {
      assert 2 * r == 22 * 23;
      assert RotAmount(t) == 61;
    } else if t == 22 {
      assert 2 * r == 23 * 24;
      assert RotAmount(t) == 20;
    } else {
      assert 2 * r == 24 * 25;
      assert RotAmount(t) == 44;
    }
  }

  /** The code's rotation r % 64 at step t, where r is the triangular number (t+1)(t+2)/2. */
  lemma WalkRotation(t: nat, r: nat)
    requires t < 24 && 2 * r == (t + 1) * (t + 2)
    ensures (r % 64) as bv7 == RotAmount(t)
  {
    if t < 6 {
      WalkRotation0(t, r);
    } else if t < 12 {
      WalkRotation1(t, r);
    } else if t < 18 {
      WalkRotation2(t, r);
    } else {
      WalkRotation3(t, r);
    }
  }

  lemma WalkRotationIsRho0(a: bv64, t: nat)
    requires 0 <= t < 6
    ensures Rol(a, RotAmount(t)) == RhoLane(a, WalkPos(t))
  {
    if t == 0 {
      assert RotAmount(t) == 1 && WalkPos(t) == 1;
      assert RhoLane(a, 1) == a.RotateLeft(1);
      RolIsRotation1(a);
    } else if t == 1 {
      assert RotAmount(t) == 3 && WalkPos(t) == 10;
      assert RhoLane(a, 10) == a.RotateLeft(3);
      RolIsRotation1(a);
    } else if t == 2 {
      assert RotAmount(t) == 6 && WalkPos(t) == 7;
      assert RhoLane(a, 7) == a.RotateLeft(6);
      RolIsRotation1(a);
    } else if t == 3 {
      assert RotAmount(t) == 10 && WalkPos(t) == 11;
      assert RhoLane(a, 11) == a.RotateLeft(10);
      RolIsRotation1(a);
    } else if t == 4 {
      assert RotAmount(t) == 15 && WalkPos(t) == 17;
      assert RhoLane(a, 17) == a.RotateLeft(15);
      RolIsRotation1(a);
    } else {
      assert RotAmount(t) == 21 && WalkPos(t) == 18;
      assert RhoLane(a, 18) == a.RotateLeft(21);
      RolIsRotation1(a);
    }
  }

  lemma WalkRotationIsRho1(a: bv64, t: nat)
    requires 6 <= t < 12
    ensures Rol(a, RotAmount(t)) == RhoLane(a, WalkPos(t))
  {
    if t == 6 {
      assert RotAmount(t) == 28 && WalkPos(t) == 3;
      assert RhoLane(a, 3) == a.RotateLeft(28);
      RolIsRotation1(a);
    } else if t == 7 {
      assert RotAmount(t) == 36 && WalkPos(t) == 5;
      assert RhoLane(a, 5) == a.RotateLeft(36);
      RolIsRotation1(a);
    } else if t == 8 {
      assert RotAmount(t) == 45 && WalkPos(t) == 16;
      assert RhoLane(a, 16) == a.RotateLeft(45);
      RolIsRotation2(a);
    } else if t == 9 {
      assert RotAmount(t) == 55 && WalkPos(t) == 8;
      assert RhoLane(a, 8) == a.RotateLeft(55);
      RolIsRotation2(a);
    } else if t == 10 {
      assert RotAmount(t) == 2 && WalkPos(t) == 21;
      assert RhoLane(a, 21) == a.RotateLeft(2);
      RolIsRotation2(a);
    } else {
      assert RotAmount(t) == 14 && WalkPos(t) == 24;
      assert RhoLane(a, 24) == a.RotateLeft(14);
      RolIsRotation2(a);
    }
  }

  lemma WalkRotationIsRho2(a: bv64, t: nat)
    requires 12 <= t < 18
    ensures Rol(a, RotAmount(t)) == RhoLane(a, WalkPos(t))
  {
    if t == 12 {
      assert RotAmount(t) == 27 && WalkPos(t) == 4;
      assert RhoLane(a, 4) == a.RotateLeft(27);
      RolIsRotation2(a);
    } else if t == 13 {
      assert RotAmount(t) == 41 && WalkPos(t) == 15;
      assert RhoLane(a, 15) == a.RotateLeft(41);
      RolIsRotation2(a);
    } else if t == 14 {
      assert RotAmount(t) == 56 && WalkPos(t) == 23;
      assert RhoLane(a, 23) == a.RotateLeft(56);
      RolIsRotation2(a);
    } else if t == 15 {
      assert RotAmount(t) == 8 && WalkPos(t) == 19;
      assert RhoLane(a, 19) == a.RotateLeft(8);
      RolIsRotation2(a);
    } else if t == 16 {
      assert RotAmount(t) == 25 && WalkPos(t) == 13;
      assert RhoLane(a, 13) == a.RotateLeft(25);
      RolIsRotation3(a);
    } else {
      assert RotAmount(t) == 43 && WalkPos(t) == 12;
      assert RhoLane(a, 12) == a.RotateLeft(43);
      RolIsRotation3(a);
    }
  }

  lemma WalkRotationIsRho3(a: bv64, t: nat)
    requires 18 <= t < 24
    ensures Rol(a, RotAmount(t)) == RhoLane(a, WalkPos(t))
  {
    if t == 18 {
      assert RotAmount(t) == 62 && WalkPos(t) == 2;
      assert RhoLane(a, 2) == a.RotateLeft(62);
      RolIsRotation3(a);
    } else if t == 19 {
      assert RotAmount(t) == 18 && WalkPos(t) == 20;
      assert RhoLane(a, 20) == a.RotateLeft(18);
      RolIsRotation3(a);
    } else if t == 20 {
      assert RotAmount(t) == 39 && WalkPos(t) == 14;
      assert RhoLane(a, 14) == a.RotateLeft(39);
      RolIsRotation3(a);
    } else if t == 21 {
      assert RotAmount(t) == 61 && WalkPos(t) == 22;
      assert RhoLane(a, 22) == a.RotateLeft(61);
      RolIsRotation3(a);
    } else if t == 22 {
      assert RotAmount(t) == 20 && WalkPos(t) == 9;
      assert RhoLane(a, 9) == a.RotateLeft(20);
      RolIsRotation3(a);
    } else {
      assert RotAmount(t) == 44 && WalkPos(t) == 6;
      assert RhoLane(a, 6) == a.RotateLeft(44);
      RolIsRotation3(a);
    }
  }

  /** The rotation of step t is the rho rotation of the lane it moves. */
  lemma WalkRotationIsRho(a: bv64, t: nat)
    requires t < 24
    ensures Rol(a, RotAmount(t)) == RhoLane(a, WalkPos(t))
  {
    if t < 6 {
      WalkRotationIsRho0(a, t);
    } else if t < 12 {
      WalkRotationIsRho1(a, t);
    } else if t < 18 {
      WalkRotationIsRho2(a, t);
    } else {
      WalkRotationIsRho3(a, t);
    }
  }

  /** The word step t stores: lane WalkPos(t) of A rotated by RotAmount(t). */
  function RotatedLane(A: seq<bv64>, t: nat): bv64
    requires |A| == LaneCount && t < 24
  {
    Rol(A[WalkPos(t)], RotAmount(t))
  }

  /** The lanes after j steps of the walk from A: step t stores lane WalkPos(t) of A, rotated, at WalkPos(t + 1). */
  function WalkState(A: seq<bv64>, j: nat): (A': seq<bv64>)
    requires |A| == LaneCount && j <= 24
    ensures |A'| == LaneCount
  {
    if j == 0 then A
    else WalkState(A, j - 1)[WalkPos(j) := RotatedLane(A, j - 1)]
  }

  /** After j steps, lane k holds its rotated pi source if its step has come, and A[k] otherwise. */
  lemma {:induction false} WalkStateLane(A: seq<bv64>, j: nat, k: nat)
    requires |A| == LaneCount && j <= 24 && k < LaneCount
    ensures WalkState(A, j)[k] ==
      if StepOf(k) < j then RotatedLane(A, StepOf(k)) else A[k]
  {
    if j > 0 {
      WalkStateLane(A, j - 1, k);
      StepOfWalk(j);
      if k != 0 {
        WalkOfStep(k);
      }
    }
  }

  /** Lane (0, 0) is never touched by the walk. */
  lemma WalkKeepsOrigin(A: seq<bv64>, j: nat)
    requires |A| == LaneCount && j <= 24
    ensures WalkState(A, j)[0] == A[0]
  {
    WalkStateLane(A, j, 0);
  }

  /** Lane k after the complete walk is lane k of pi(rho(A)). */
  lemma WalkLaneIsRhoPi(A: seq<bv64>, k: nat)
    requires |A| == LaneCount && k < LaneCount
    ensures WalkState(A, 24)[k] == Pi(Rho(A))[k]
  {
    WalkStateLane(A, 24, k);
    if k == 0 {
      PiFixesOrigin();
    } else {
      WalkOfStep(k);
      var t := StepOf(k);
      WalkFollowsPi(t);
      WalkRotationIsRho(A[WalkPos(t)], t);
    }
  }

  /** The complete walk computes pi(rho(A)). */
  lemma WalkIsRhoPi(A: seq<bv64>)
    requires |A| == LaneCount
    ensures WalkState(A, 24) == Pi(Rho(A))
  {
    forall k | 0 <= k < LaneCount
      ensures WalkState(A, 24)[k] == Pi(Rho(A))[k]
    {
      WalkLaneIsRhoPi(A, k);
    }
  }
}
