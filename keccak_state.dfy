/**
 * The 1600-bit Keccak state as 200 bytes, viewed as 25 little-endian 64-bit
 * lanes.  Lane (x, y) has index x + 5*y and occupies bytes
 * 8*(x+5*y) .. 8*(x+5*y)+8 of the byte state.
 *
 * The pure part defines the little-endian conversions between one lane and
 * its 8 bytes, and between the whole byte state and its 25 lanes, and the
 * rotation ROL.  The imperative part models load64 / store64 / xor64, which
 * work byte by byte on an 8-byte slot of a buffer, and the rL / wL / XL lane
 * accessors built on them.
 */
module KeccakState {

  /** Number of bytes of the state. */
  const StateBytes: nat := 200

  /** Number of lanes of the state. */
  const LaneCount: nat := 25

  /** Index of lane (x, y) in the 25-lane view. */
  function LaneIndex(x: nat, y: nat): (k: nat)
    requires x < 5 && y < 5
    ensures k < LaneCount && k % 5 == x && k / 5 == y
  {
    x + 5 * y
  }

  /** The least significant byte of u (the C conversion of a u64 to a u8). */
  function LowByte(u: bv64): bv8
  {
    (u & 0xFF) as bv8
  }

  /** u shifted right by n whole bytes, one byte at a time. */
  function ShiftBytes(u: bv64, n: nat): bv64
  {
    if n == 0 then u else ShiftBytes(u >> 8, n - 1)
  }

  /** Shifting by one more byte is one more right shift by 8. */
  lemma {:induction false} ShiftBytesStep(u: bv64, n: nat)
    ensures ShiftBytes(u, n + 1) == ShiftBytes(u, n) >> 8
  {
    if n > 0 {
      ShiftBytesStep(u >> 8, n - 1);
    }
  }

  /** The eight little-endian bytes of u: byte i is (u >> 8i) & 0xff. */
  function LeBytes(u: bv64): (b: seq<bv8>)
    ensures |b| == 8
  {
    seq(8, i requires 0 <= i < 8 => LowByte(ShiftBytes(u, i)))
  }

  lemma ShiftBytesConstants(u: bv64)
    ensures ShiftBytes(u, 0) == u && ShiftBytes(u, 1) == u >> 8
    ensures ShiftBytes(u, 2) == u >> 16 && ShiftBytes(u, 3) == u >> 24
    ensures ShiftBytes(u, 4) == u >> 32 && ShiftBytes(u, 5) == u >> 40
    ensures ShiftBytes(u, 6) == u >> 48 && ShiftBytes(u, 7) == u >> 56
  {
  }

  /** Byte i of LeBytes(u) is (u >> 8i) & 0xff, written out for each i. */
  lemma LeBytesConstants(u: bv64)
    ensures LeBytes(u)[0] == (u & 0xFF) as bv8 && LeBytes(u)[1] == ((u >> 8) & 0xFF) as bv8
    ensures LeBytes(u)[2] == ((u >> 16) & 0xFF) as bv8 && LeBytes(u)[3] == ((u >> 24) & 0xFF) as bv8
    ensures LeBytes(u)[4] == ((u >> 32) & 0xFF) as bv8 && LeBytes(u)[5] == ((u >> 40) & 0xFF) as bv8
    ensures LeBytes(u)[6] == ((u >> 48) & 0xFF) as bv8 && LeBytes(u)[7] == ((u >> 56) & 0xFF) as bv8
  {
    ShiftBytesConstants(u);
  }

  /**
   * The word whose little-endian bytes are b[i..8]: b[i] is its least
   * significant byte.  This is the value load64 has accumulated after
   * reading b[7], b[6], ..., b[i].
   */
  function LeWordFrom(b: seq<bv8>, i: nat): bv64
    requires |b| == 8 && i <= 8
    decreases 8 - i
  {
    if i == 8 then 0 else (b[i] as bv64) | (LeWordFrom(b, i + 1) << 8)
  }

  /** The little-endian word of eight bytes. */
  function LeWord(b: seq<bv8>): bv64
    requires |b| == 8
  {
    LeWordFrom(b, 0)
  }

  /** Eight bytes packed into a word, b0 least significant. */
  function Pack(b0: bv8, b1: bv8, b2: bv8, b3: bv8, b4: bv8, b5: bv8, b6: bv8, b7: bv8): bv64
  {
    (b0 as bv64) | (((b1 as bv64) | (((b2 as bv64) | (((b3 as bv64) |
    (((b4 as bv64) | (((b5 as bv64) | (((b6 as bv64) |
    ((b7 as bv64) << 8)) << 8)) << 8)) << 8)) << 8)) << 8)) << 8)
  }

  lemma UnfoldLeWord(b: seq<bv8>)
    requires |b| == 8
    ensures LeWord(b) == Pack(b[0], b[1], b[2], b[3], b[4], b[5], b[6], b[7])
  {
    assert LeWordFrom(b, 7) == b[7] as bv64;
    assert LeWordFrom(b, 6) == (b[6] as bv64) | (LeWordFrom(b, 7) << 8);
    assert LeWordFrom(b, 5) == (b[5] as bv64) | (LeWordFrom(b, 6) << 8);
    assert LeWordFrom(b, 4) == (b[4] as bv64) | (LeWordFrom(b, 5) << 8);
    assert LeWordFrom(b, 3) == (b[3] as bv64) | (LeWordFrom(b, 4) << 8);
    assert LeWordFrom(b, 2) == (b[2] as bv64) | (LeWordFrom(b, 3) << 8);
    assert LeWordFrom(b, 1) == (b[1] as bv64) | (LeWordFrom(b, 2) << 8);
  }

  lemma PackOfBytes(u: bv64)
    ensures Pack((u & 0xFF) as bv8, ((u >> 8) & 0xFF) as bv8, ((u >> 16) & 0xFF) as bv8,
                 ((u >> 24) & 0xFF) as bv8, ((u >> 32) & 0xFF) as bv8, ((u >> 40) & 0xFF) as bv8,
                 ((u >> 48) & 0xFF) as bv8, ((u >> 56) & 0xFF) as bv8) == u
  {
  }

  lemma BytesOfPack(b0: bv8, b1: bv8, b2: bv8, b3: bv8, b4: bv8, b5: bv8, b6: bv8, b7: bv8)
    ensures var u := Pack(b0, b1, b2, b3, b4, b5, b6, b7);
      && (u & 0xFF) as bv8 == b0 && ((u >> 8) & 0xFF) as bv8 == b1
      && ((u >> 16) & 0xFF) as bv8 == b2 && ((u >> 24) & 0xFF) as bv8 == b3
      && ((u >> 32) & 0xFF) as bv8 == b4 && ((u >> 40) & 0xFF) as bv8 == b5
      && ((u >> 48) & 0xFF) as bv8 == b6 && ((u >> 56) & 0xFF) as bv8 == b7
  {
  }

  lemma PackXor(b0: bv8, b1: bv8, b2: bv8, b3: bv8, b4: bv8, b5: bv8, b6: bv8, b7: bv8,
                c0: bv8, c1: bv8, c2: bv8, c3: bv8, c4: bv8, c5: bv8, c6: bv8, c7: bv8)
    ensures Pack(b0 ^ c0, b1 ^ c1, b2 ^ c2, b3 ^ c3, b4 ^ c4, b5 ^ c5, b6 ^ c6, b7 ^ c7)
         == Pack(b0, b1, b2, b3, b4, b5, b6, b7) ^ Pack(c0, c1, c2, c3, c4, c5, c6, c7)
  {
  }

  /** Bytes -> word -> bytes is the identity. */
  lemma LeBytesOfLeWord(b: seq<bv8>)
    requires |b| == 8
    ensures LeBytes(LeWord(b)) == b
  {
    UnfoldLeWord(b);
    LeBytesConstants(LeWord(b));
    BytesOfPack(b[0], b[1], b[2], b[3], b[4], b[5], b[6], b[7]);
  }

  /** Word -> bytes -> word is the identity. */
  lemma LeWordOfLeBytes(u: bv64)
    ensures LeWord(LeBytes(u)) == u
  {
    UnfoldLeWord(LeBytes(u));
    LeBytesConstants(u);
    PackOfBytes(u);
  }

  /** Bytewise XOR of two 8-byte slots. */
  function XorBytes(b: seq<bv8>, c: seq<bv8>): (d: seq<bv8>)
    requires |b| == 8 && |c| == 8
    ensures |d| == 8
  {
    seq(8, i requires 0 <= i < 8 => b[i] ^ c[i])
  }

  /** The word of a bytewise XOR is the XOR of the words. */
  lemma LeWordXor(b: seq<bv8>, c: seq<bv8>, d: seq<bv8>)
    requires |b| == |c| == |d| == 8
    requires forall i :: 0 <= i < 8 ==> d[i] == b[i] ^ c[i]
    ensures LeWord(d) == LeWord(b) ^ LeWord(c)
  {
    UnfoldLeWord(b);
    UnfoldLeWord(c);
    UnfoldLeWord(d);
    PackXor(b[0], b[1], b[2], b[3], b[4], b[5], b[6], b[7],
            c[0], c[1], c[2], c[3], c[4], c[5], c[6], c[7]);
  }

  /** The 25 lanes of a 200-byte state: lane k is the little-endian word of bytes 8k..8k+8. */
  function Lanes(b: seq<bv8>): (A: seq<bv64>)
    requires |b| == StateBytes
    ensures |A| == LaneCount
  {
    seq(LaneCount, k requires 0 <= k < LaneCount => LeWord(b[8 * k..8 * k + 8]))
  }

  /** The 200 bytes of a 25-lane state: byte i is byte i % 8 of lane i / 8. */
  function Bytes(A: seq<bv64>): (b: seq<bv8>)
    requires |A| == LaneCount
    ensures |b| == StateBytes
  {
    seq(StateBytes, i requires 0 <= i < StateBytes => LeBytes(A[i / 8])[i % 8])
  }

  /** The slot of lane k in Bytes(A) is the little-endian encoding of A[k]. */
  lemma BytesSlot(A: seq<bv64>, k: nat)
    requires |A| == LaneCount && k < LaneCount
    ensures Bytes(A)[8 * k..8 * k + 8] == LeBytes(A[k])
  {
    var b := Bytes(A);
    forall j | 0 <= j < 8
      ensures b[8 * k + j] == LeBytes(A[k])[j]
    {
      assert (8 * k + j) / 8 == k && (8 * k + j) % 8 == j;
    }
  }

  /** Bytes -> lanes -> bytes is the identity. */
  lemma BytesOfLanes(b: seq<bv8>)
    requires |b| == StateBytes
    ensures Bytes(Lanes(b)) == b
  {
    var A := Lanes(b);
    forall i | 0 <= i < StateBytes
      ensures Bytes(A)[i] == b[i]
    {
      var k := i / 8;
      LeBytesOfLeWord(b[8 * k..8 * k + 8]);
      assert LeBytes(A[k]) == b[8 * k..8 * k + 8];
      assert LeBytes(A[k])[i % 8] == b[8 * k + i % 8];
    }
  }

  /** Lanes -> bytes -> lanes is the identity. */
  lemma LanesOfBytes(A: seq<bv64>)
    requires |A| == LaneCount
    ensures Lanes(Bytes(A)) == A
  {
    forall k | 0 <= k < LaneCount
      ensures Lanes(Bytes(A))[k] == A[k]
    {
      BytesSlot(A, k);
      LeWordOfLeBytes(A[k]);
    }
  }

  /**
   * ROL(a, o): a rotated left by o bits, defined for 0 < o < 64 (a shift by
   * 64 - o = 64 would be undefined in C).
   */
  function Rol(a: bv64, o: bv7): bv64
    requires 0 < o < 64
  {
    (a << o) ^ (a >> (64 - o))
  }

  /** ROL is rotation for the amounts used by theta and by the rho step, part 1. */
  lemma RolIsRotation1(a: bv64)
    ensures Rol(a, 1) == a.RotateLeft(1) && Rol(a, 3) == a.RotateLeft(3)
    ensures Rol(a, 6) == a.RotateLeft(6) && Rol(a, 10) == a.RotateLeft(10)
    ensures Rol(a, 15) == a.RotateLeft(15) && Rol(a, 21) == a.RotateLeft(21)
    ensures Rol(a, 28) == a.RotateLeft(28) && Rol(a, 36) == a.RotateLeft(36)
  {
  }

  /** ROL is rotation for the amounts used by the rho step, part 2. */
  lemma RolIsRotation2(a: bv64)
    ensures Rol(a, 45) == a.RotateLeft(45) && Rol(a, 55) == a.RotateLeft(55)
    ensures Rol(a, 2) == a.RotateLeft(2) && Rol(a, 14) == a.RotateLeft(14)
    ensures Rol(a, 27) == a.RotateLeft(27) && Rol(a, 41) == a.RotateLeft(41)
    ensures Rol(a, 56) == a.RotateLeft(56) && Rol(a, 8) == a.RotateLeft(8)
  {
  }

  /** ROL is rotation for the amounts used by the rho step, part 3. */
  lemma RolIsRotation3(a: bv64)
    ensures Rol(a, 25) == a.RotateLeft(25) && Rol(a, 43) == a.RotateLeft(43)
    ensures Rol(a, 62) == a.RotateLeft(62) && Rol(a, 18) == a.RotateLeft(18)
    ensures Rol(a, 39) == a.RotateLeft(39) && Rol(a, 61) == a.RotateLeft(61)
    ensures Rol(a, 20) == a.RotateLeft(20) && Rol(a, 44) == a.RotateLeft(44)
  {
  }

  /** The buffer s with the 8 bytes at off replaced by w. */
  function Splice(b: seq<bv8>, off: nat, w: seq<bv8>): (b': seq<bv8>)
    requires off + 8 <= |b| && |w| == 8
    ensures |b'| == |b|
  {
    b[..off] + w + b[off + 8..]
  }

  /** load64: the little-endian word of s[off..off+8], read from the top byte down. */
  method Load64(s: array<bv8>, off: nat) returns (u: bv64)
    requires off + 8 <= s.Length
    ensures u == LeWord(s[off..off + 8])
  {
    ghost var slot := s[off..off + 8];
    u := 0;
    for i := 0 to 8
      invariant u == LeWordFrom(slot, 8 - i)
    {
      u := u << 8;
      u := u | (s[off + 7 - i] as bv64);
    }
  }

  /** store64: write the little-endian bytes of u to s[off..off+8], lowest byte first. */
  method Store64(s: array<bv8>, off: nat, u: bv64)
    requires off + 8 <= s.Length
    modifies s
    ensures s[..] == Splice(old(s[..]), off, LeBytes(u))
  {
    ghost var w := LeBytes(u);
    var v := u;
    for i := 0 to 8
      invariant v == ShiftBytes(u, i)
      invariant forall j :: off <= j < off + i ==> s[j] == w[j - off]
      invariant forall j :: 0 <= j < s.Length && !(off <= j < off + i) ==> s[j] == old(s[j])
    {
      assert w[i] == LowByte(v);
      s[off + i] := LowByte(v);
      ShiftBytesStep(u, i);
      v := v >> 8;
    }
    assert s[..] == Splice(old(s[..]), off, w);
  }

  /** xor64: XOR the little-endian bytes of u into s[off..off+8]. */
  method Xor64(s: array<bv8>, off: nat, u: bv64)
    requires off + 8 <= s.Length
    modifies s
    ensures s[..] == Splice(old(s[..]), off, XorBytes(old(s[..])[off..off + 8], LeBytes(u)))
  {
    ghost var w := XorBytes(old(s[..])[off..off + 8], LeBytes(u));
    var v := u;
    for i := 0 to 8
      invariant v == ShiftBytes(u, i)
      invariant forall j :: off <= j < off + i ==> s[j] == w[j - off]
      invariant forall j :: 0 <= j < s.Length && !(off <= j < off + i) ==> s[j] == old(s[j])
    {
      var b := s[off + i] ^ LowByte(v);
      assert b == w[i];
      s[off + i] := b;
      ShiftBytesStep(u, i);
      v := v >> 8;
    }
    assert s[..] == Splice(old(s[..]), off, w);
  }

  /** Replacing the slot of lane k by the encoding of l replaces lane k by l. */
  lemma LanesOfSplice(b: seq<bv8>, k: nat, l: bv64)
    requires |b| == StateBytes && k < LaneCount
    ensures Lanes(Splice(b, 8 * k, LeBytes(l))) == Lanes(b)[k := l]
  {
    var b' := Splice(b, 8 * k, LeBytes(l));
    forall k' | 0 <= k' < LaneCount
      ensures Lanes(b')[k'] == Lanes(b)[k := l][k']
    {
      if k' == k {
        assert b'[8 * k..8 * k + 8] == LeBytes(l);
        LeWordOfLeBytes(l);
      } else {
        assert b'[8 * k'..8 * k' + 8] == b[8 * k'..8 * k' + 8];
      }
    }
  }

  /** XORing the bytes of l into a slot XORs l into its word. */
  lemma LeWordXorWord(slot: seq<bv8>, l: bv64)
    requires |slot| == 8
    ensures LeWord(XorBytes(slot, LeBytes(l))) == LeWord(slot) ^ l
  {
    LeWordXor(slot, LeBytes(l), XorBytes(slot, LeBytes(l)));
    LeWordOfLeBytes(l);
  }

  /** XORing the encoding of l into the slot of lane k XORs l into the word of that slot. */
  lemma XorSlotWord(b: seq<bv8>, k: nat, l: bv64)
    requires |b| == StateBytes && k < LaneCount
    ensures LeWord(XorBytes(b[8 * k..8 * k + 8], LeBytes(l))) == Lanes(b)[k] ^ l
  {
    LeWordXorWord(b[8 * k..8 * k + 8], l);
  }

  /** XORing the encoding of l into the slot of lane k XORs l into lane k. */
  lemma LanesOfXorSplice(b: seq<bv8>, k: nat, l: bv64)
    requires |b| == StateBytes && k < LaneCount
    ensures Lanes(Splice(b, 8 * k, XorBytes(b[8 * k..8 * k + 8], LeBytes(l))))
         == Lanes(b)[k := Lanes(b)[k] ^ l]
  {
    var w := XorBytes(b[8 * k..8 * k + 8], LeBytes(l));
    XorSlotWord(b, k, l);
    LeBytesOfLeWord(w);
    LanesOfSplice(b, k, LeWord(w));
  }

  /** rL(x, y): read lane (x, y) of the byte state. */
  method ReadLane(s: array<bv8>, x: nat, y: nat) returns (l: bv64)
    requires s.Length == StateBytes && x < 5 && y < 5
    ensures l == Lanes(s[..])[LaneIndex(x, y)]
  {
    l := Load64(s, 8 * LaneIndex(x, y));
  }

  /** wL(x, y, l): overwrite lane (x, y) of the byte state with l. */
  method WriteLane(s: array<bv8>, x: nat, y: nat, l: bv64)
    requires s.Length == StateBytes && x < 5 && y < 5
    modifies s
    ensures Lanes(s[..]) == Lanes(old(s[..]))[LaneIndex(x, y) := l]
  {
    ghost var b := s[..];
    var k := LaneIndex(x, y);
    Store64(s, 8 * k, l);
    LanesOfSplice(b, k, l);
  }

  /** XL(x, y, l): XOR l into lane (x, y) of the byte state. */
  method XorLane(s: array<bv8>, x: nat, y: nat, l: bv64)
    requires s.Length == StateBytes && x < 5 && y < 5
    modifies s
    ensures Lanes(s[..]) == Lanes(old(s[..]))[LaneIndex(x, y) := Lanes(old(s[..]))[LaneIndex(x, y)] ^ l]
  {
    ghost var b := s[..];
    var k := LaneIndex(x, y);
    Xor64(s, 8 * k, l);
    LanesOfXorSplice(b, k, l);
  }
}
