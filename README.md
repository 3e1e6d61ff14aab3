# Keccak-256 (original Keccak) of the `keccak_hash` PHP extension

This project models the algorithmic core of `keccak256.c`. That file is a
condensed copy of the Keccak reference code, wrapped in a PHP function.
The model covers:

- the byte-level lane accessors `load64`, `store64`, `xor64` and the
  `rL`/`wL`/`XL` macros;
- the round-constant generator `LFSR86540` and the rotation `ROL`;
- the permutation `KeccakF1600`: 24 rounds of theta, the fused rho/pi walk,
  chi and iota on a 200-byte state;
- the sponge function `Keccak(r, c, in, inLen, sfx, out, outLen)`;
- `KECCAK_256`, the original Keccak-256 with rate 1088 bits, suffix byte
  `0x01` and 32 output bytes. It is not SHA3-256, which uses suffix `0x06`;
- the hex loop of `keccak_hash`: 64 lowercase hex digits and a NUL.

The C code changes a buffer step by step, so the model is written the same
way. Each C loop is a Dafny `method` over an `array<bv8>` (or `array<char>`)
with loop invariants. Each method is proved against a reference function on
sequences. The reference functions are:

- module `KeccakSpec`: the step mappings of FIPS 202 (Algorithms 1 to 7) on
  25 lanes of 64 bits, with the rotation offsets of Table 2 of FIPS 202;
- module `RoundConstants`: `rc(t)` as FIPS 202 Algorithm 5 defines it, on a
  bit string of 8 booleans;
- module `SpongeSpec`: the sponge construction of FIPS 202 section 4
  (Algorithm 8) on bytes, with the permutation as a parameter;
- module `Hex`: the encoding `ToHex` and its inverse `FromHex`.

Modules, in dependency order:

| module | file | models |
|---|---|---|
| `KeccakState` | keccak_state.dfy | lane index `x + 5y`; little-endian word and byte views of a lane; `load64`, `store64`, `xor64`; `rL`, `wL`, `XL`; `ROL` |
| `RoundConstants` | round_constants.dfy | `LFSR86540` against FIPS 202 Algorithm 5; the bits that iota sets |
| `RhoPiWalk` | rho_pi_walk.dfy | the 24-step walk `x, y := y, (2x+3y) mod 5` of the rho/pi loop and its triangular rotation amounts |
| `KeccakSpec` | permutation_spec.dfy | theta, rho, pi, chi, iota and Keccak-f[1600] as functions on lanes |
| `Permutation` | permutation.dfy | `KeccakF1600` as methods on the 200-byte array, one per loop of a round |
| `SeqLemmas`, `Blocks` | seq_lemmas.dfy, blocks.dfy | sequence facts; counting blocks of R bytes, tied to Euclidean division |
| `SpongeSpec` | sponge_spec.dfy | the reference sponge: padding, absorbing, squeezing, call counts |
| `Sponge` | sponge.dfy | `Keccak` and `KECCAK_256` as methods on the state array |
| `Hex` | hex.dfy | `"%02x"` formatting, the hex loop, and the round trip of the encoding |
| `KeccakHash` | keccak_hash.dfy | the hashing path of `keccak_hash`: digest, then raw bytes or hex |

The main results are these:

- `Permutation.KeccakF1600` leaves `Permute(old(s[..]))` in the array. That
  is 24 rounds of `iota(chi(pi(rho(theta(A)))), ir)` on the lane view, with
  the FIPS 202 round constants.
- `Sponge.Keccak256` leaves `SpongeSpec.Keccak256(inp[..inLen])` in
  `out[0..32)` and leaves the rest of `out` as it was. It calls
  Keccak-f[1600] exactly `inLen / 136 + 1` times.
- `KeccakHash.HexResult` returns 64 lowercase hex digits and a NUL. The
  digits decode back to the digest.

## Model

| member | source | states |
|---|---|---|
| `KeccakState.LaneIndex` | keccak256.c:32-34 | the lane offset `x + 5*y` of `rL`/`wL`/`XL` is below 25 and gives back x as its remainder and y as its quotient by 5 |
| `KeccakState.Load64` | keccak256.c:29 | load64 returns the little-endian word of the 8 bytes at the offset |
| `KeccakState.Store64` | keccak256.c:30 | store64 writes the little-endian bytes of u to the 8 bytes at the offset and changes nothing else |
| `KeccakState.Xor64` | keccak256.c:31 | xor64 XORs the little-endian bytes of u into the 8 bytes at the offset and changes nothing else |
| `KeccakState.LeBytesOfLeWord` | keccak256.c:29-30 | reading 8 bytes as a word and writing the word back gives the same bytes |
| `KeccakState.LeWordOfLeBytes` | keccak256.c:29-30 | writing a word as bytes and reading them back gives the same word |
| `KeccakState.LeBytesConstants` | keccak256.c:30 | byte i of the encoding is `(u >> 8i) & 0xff`: the least significant byte comes first (little-endian) |
| `KeccakState.LeWordXor` | keccak256.c:31 | the word of two byte slots XORed byte by byte is the XOR of their words |
| `KeccakState.LeWordXorWord` | keccak256.c:31 | XORing the bytes of l into a slot XORs l into the slot's word |
| `KeccakState.BytesOfLanes` | keccak256.c:32-34 | bytes to 25 lanes to bytes is the identity on 200-byte states |
| `KeccakState.LanesOfBytes` | keccak256.c:32-34 | 25 lanes to bytes to lanes is the identity |
| `KeccakState.BytesSlot` | keccak256.c:32-34 | bytes 8k to 8k+8 of the byte state are the little-endian encoding of lane k |
| `KeccakState.LanesOfSplice` | keccak256.c:33 | overwriting the slot of lane k with the bytes of l replaces lane k by l and keeps the other lanes |
| `KeccakState.LanesOfXorSplice` | keccak256.c:34 | XORing the bytes of l into the slot of lane k XORs l into lane k and keeps the other lanes |
| `KeccakState.ReadLane` | keccak256.c:32 | rL(x,y) returns lane x+5y of the state |
| `KeccakState.WriteLane` | keccak256.c:33 | wL(x,y,l) replaces lane x+5y by l; the other 24 lanes are unchanged |
| `KeccakState.XorLane` | keccak256.c:34 | XL(x,y,l) XORs l into lane x+5y; the other 24 lanes are unchanged |
| `KeccakState.RolIsRotation1` | keccak256.c:28 | ROL(a,o), the XOR of the two shifts, is rotation left by o, for the amounts 1, 3, 6, 10, 15, 21, 28, 36 |
| `KeccakState.RolIsRotation2` | keccak256.c:28 | the same for 45, 55, 2, 14, 27, 41, 56, 8 |
| `KeccakState.RolIsRotation3` | keccak256.c:28 | the same for 25, 43, 62, 18, 39, 61, 20, 44 |
| `KeccakState.Rol` | keccak256.c:28 | ROL(a,o) as the C writes it, the XOR of `a<<o` and `a>>(64-o)` on 64 bits, for 0 < o < 64; its meaning, rotation left by o, is stated by `RolIsRotation1` to `RolIsRotation3` for every amount the permutation uses |
| `RoundConstants.FipsLfsrStepBits` | keccak256.c:27 | one step of the FIPS 202 Algorithm 5 register, bit by bit: the bits shift up, and the top bit goes to bit 0 and into bits 4, 5 and 6 |
| `RoundConstants.LfsrByteBits` | keccak256.c:27 | each bit of `(R<<1)^((R&0x80)?0x71:0)` in terms of the old bits: a shift, with feedback of bit 7 into bits 0, 4, 5 and 6 |
| `RoundConstants.LfsrShift` | keccak256.c:27 | the register update `(*R)=((*R)<<1)^(((*R)&0x80)?0x71:0)` truncated to a byte; `LfsrByteBits` and `LfsrShiftIsFipsStep` state what it does to each bit |
| `RoundConstants.LfsrShiftIsFipsStep` | keccak256.c:27 | the new register byte is the bit string Algorithm 5 gives after one step; bit 1 of the new byte is bit 0 of the old one |
| `RoundConstants.Lfsr86540` | keccak256.c:27 | LFSR86540: the new register byte and the returned bit `((*R)&2)>>1`; `Lfsr86540IsFipsStep` states that this is one step of FIPS 202 Algorithm 5 returning R[0] |
| `RoundConstants.Lfsr86540IsFipsStep` | keccak256.c:27 | LFSR86540 makes exactly the Algorithm 5 step and returns bit R[0] of the register before the step |
| `RoundConstants.LfsrStateIsFips` | keccak256.c:27-37 | after n calls from the seed 0x01, the register byte holds the Algorithm 5 bit string after n steps |
| `RoundConstants.LfsrOutputIsRc` | keccak256.c:27-44 | call number n of LFSR86540 after the seed returns rc(n), for every n below 255 |
| `RoundConstants.LfsrCall` | keccak256.c:44 | call j of round ir is call j+7ir; its result decides whether bit 2^j-1 of round constant ir is set |
| `RoundConstants.IotaBitIsShift` | keccak256.c:44 | the bit that iota may set, `(u64)1<<((1<<j)-1)`, is bit 2^j-1, with a shift amount below 64 |
| `RoundConstants.IotaMaskBits` | keccak256.c:44 | the seven bits iota can reach are bits 0, 1, 3, 7, 15, 31 and 63 |
| `RoundConstants.Pow2Small` | keccak256.c:44 | for j < 7 the shift amount `(1<<j)-1` is one of 0, 1, 3, 7, 15, 31, 63 |
| `RoundConstants.RoundConstantUpToInMask` | keccak256.c:44 | every round constant, and every partial one, has bits only at those seven positions |
| `RhoPiWalk.WalkStart` | keccak256.c:41 | the walk starts at lane (1,0) |
| `RhoPiWalk.WalkStep` | keccak256.c:42 | each step `Y=(2x+3y)%5; x=y; y=Y` moves to the next lane of the walk |
| `RhoPiWalk.StepOfWalk` | keccak256.c:42 | the lane written by step t-1 is never lane (0,0) |
| `RhoPiWalk.WalkOfStep` | keccak256.c:42 | every lane other than (0,0) is written by some step of the 24 |
| `RhoPiWalk.WalkWritesEachLaneOnce` | keccak256.c:42 | no two steps write the same lane, so the 24 steps write the 24 lanes other than (0,0), each once |
| `RhoPiWalk.WalkFollowsPi` | keccak256.c:42 | each step moves one lane to where pi puts it |
| `RhoPiWalk.WalkOffsetsAreTable2` | keccak256.c:42 | the rho offset of the lane moved at step t is the triangular number (t+1)(t+2)/2, and the rotation used is that offset mod 64 (Table 2 of FIPS 202) |
| `RhoPiWalk.WalkRotation` | keccak256.c:42 | the running sum `r+=j+1` taken mod 64 is the rotation amount of step j |
| `RhoPiWalk.WalkRotationIsRho` | keccak256.c:42 | the rotation of step t is the rho rotation of the lane that step moves |
| `RhoPiWalk.WalkStateLane` | keccak256.c:41-42 | after j steps, a lane whose step has come holds its rotated pi source, and every other lane is unchanged |
| `RhoPiWalk.WalkKeepsOrigin` | keccak256.c:41-42 | the walk never changes lane (0,0) |
| `RhoPiWalk.WalkLaneIsRhoPi` | keccak256.c:41-42 | after the 24 steps, each lane is the same lane of pi(rho(A)) |
| `RhoPiWalk.WalkIsRhoPi` | keccak256.c:41-42 | the complete walk computes pi(rho(A)) |
| `KeccakSpec.ThetaColumnUniform` | keccak256.c:40 | theta XORs the same word D into all five lanes of a column |
| `KeccakSpec.PiSourceOfLane` | keccak256.c:42 | pi moves lane ((x+3y) mod 5, x) to lane (x,y) |
| `KeccakSpec.PiSourceInjective` | keccak256.c:42 | pi is a permutation of the 25 lanes: distinct lanes have distinct sources |
| `KeccakSpec.PiFixesOrigin` | keccak256.c:41-42 | pi keeps lane (0,0) in place, which is why the walk skips it |
| `KeccakSpec.ChiRowLocal` | keccak256.c:43 | a lane of chi depends only on the five lanes of its own row, so the snapshot C[0..5) of the row is enough |
| `KeccakSpec.IotaTouchesOnlyOrigin` | keccak256.c:44 | iota changes only lane (0,0), and only at bits 0, 1, 3, 7, 15, 31, 63 |
| `Permutation.ReadColumnParity` | keccak256.c:39 | `rL(x,0)^...^rL(x,4)` is the parity C[x] of column x |
| `Permutation.ColumnParities` | keccak256.c:39 | the first theta loop fills C[x] with the parity of column x, for each x |
| `Permutation.ThetaColumn` | keccak256.c:40 | `D=C[(x+4)%5]^ROL(C[(x+1)%5],1)` is the word theta adds to each lane of column x |
| `Permutation.XorColumn` | keccak256.c:40 | XORing D into the five lanes of column x finishes that column of theta |
| `Permutation.ThetaColumnPass` | keccak256.c:40 | one pass of the second theta loop: column x of the state becomes column x of theta |
| `Permutation.ApplyTheta` | keccak256.c:40 | the second theta loop, with C holding the column parities, leaves theta(A) |
| `Permutation.Theta1600` | keccak256.c:39-40 | the two theta loops leave theta of the lanes |
| `Permutation.WalkMove` | keccak256.c:42 | one step of the walk's variables: the next lane, the triangular running sum, and its rotation amount |
| `Permutation.WalkNext` | keccak256.c:42 | one more step of the walk changes exactly the lane that step writes |
| `Permutation.RotateWalkLane` | keccak256.c:42 | `ROL(D,r%64)` is the rotated lane of step j |
| `Permutation.RhoPiStep` | keccak256.c:42 | one pass of the walk loop: the position, the sum, the carried lane D and the state after j+1 steps |
| `Permutation.RhoPi1600` | keccak256.c:41-42 | the walk leaves pi(rho(A)) |
| `Permutation.ReadRow` | keccak256.c:43 | `FOR(x,5) C[x]=rL(x,y)` copies row y |
| `Permutation.WriteChiLane` | keccak256.c:43 | `wL(x,y,C[x]^((~C[x+1])&C[x+2]))` writes lane (x,y) of chi(A) |
| `Permutation.WriteChiRow` | keccak256.c:43 | writing the five lanes from the snapshot of row y finishes row y of chi |
| `Permutation.ChiRow` | keccak256.c:43 | one pass of the chi loop: row y becomes row y of chi(A) |
| `Permutation.Chi1600` | keccak256.c:43 | the chi loop leaves chi of the lanes |
| `Permutation.ShiftedOne` | keccak256.c:44 | `(u64)1<<((1<<j)-1)` is the iota bit for j |
| `Permutation.XorOrigin` | keccak256.c:44 | `XL(0,0,b)` XORs b into lane (0,0) only |
| `Permutation.IotaStep` | keccak256.c:44 | one pass of the iota loop steps the LFSR once and XORs in bit j of the round constant when the LFSR says so |
| `Permutation.IotaPartialIsXor` | keccak256.c:44 | after j passes, lane (0,0) is the old lane XOR the round constant's bits below j |
| `Permutation.IotaLoop` | keccak256.c:44 | the seven passes call LFSR86540 seven times and XOR the round constant into lane (0,0) |
| `Permutation.Iota1600` | keccak256.c:44 | iota with round constant ir; the register that carries over is LfsrState(7(ir+1)) |
| `Permutation.Round1600` | keccak256.c:38-45 | one round maps the lanes to `Round(A, ir)` and steps the register R seven times |
| `Permutation.KeccakF1600` | keccak256.c:36-46 | KeccakF1600 replaces the 200 bytes by Keccak-f[1600] of them: 24 rounds with ir = 0..23 and R seeded with 0x01 |
| `Blocks.BlockCountIsDiv` | keccak256.c:50 | the blocks of n bytes and those left over are n / R and n % R |
| `Blocks.MultiplePlusRem` | keccak256.c:50 | whole blocks followed by b < R bytes give quotient = the blocks and remainder b |
| `SpongeSpec.ZeroState` | keccak256.c:49 | the zero state has 200 bytes, all zero |
| `SpongeSpec.PadIsBlocks` | keccak256.c:50-51 | the padded message starts with the message and is a whole number of blocks: len(M)/R + 1 blocks, or len(M)/R + 2 when the extra padding block is needed |
| `SpongeSpec.PadShape` | keccak256.c:51 | without the extra block the padding is sfx at byte len(M), 0x80 at the block's last byte, zeros between them, and sfx^0x80 when both fall on one byte |
| `SpongeSpec.Keccak256PadByte` | keccak256.c:51 | for Keccak-256 with 135 bytes left over, the single padding byte is 0x81 |
| `SpongeSpec.XorIntoKeepsCapacity` | keccak256.c:50 | XORing at most R input bytes into the state never changes bytes R and beyond |
| `SpongeSpec.AbsorbBlocksAppend` | keccak256.c:50 | absorbing two runs of whole blocks one after the other is absorbing them joined |
| `SpongeSpec.AbsorbPrefixNext` | keccak256.c:50 | absorbing one more full block XORs it in and permutes once |
| `SpongeSpec.PadSteps` | keccak256.c:51 | the padding statements `s[b]^=sfx`, the conditional extra permutation, `s[R-1]^=0x80` and the last permutation absorb the final bytes plus the padding |
| `SpongeSpec.PadState` | keccak256.c:51 | the state after the padding line: sfx XORed into byte b, a permutation only in the extra-block case, 0x80 XORed into byte R-1, and a final permutation; `PadSteps` states that this is absorbing the last bytes followed by the pad10*1 padding |
| `SpongeSpec.PaddedState` | keccak256.c:50-51 | the padded message is absorbed as the whole blocks first, then the leftover bytes with the padding |
| `SpongeSpec.SqueezeOneBlock` | keccak256.c:52 | output that fits in one block is the first bytes of the state, with no permutation |
| `SpongeSpec.Keccak256IsFirstBytes` | keccak256.c:23-52 | Keccak-256 is the first 32 bytes of the state after absorbing the padded input; the padded input is len(M)/136 + 1 blocks |
| `SpongeSpec.SqueezeCallsIsDiv` | keccak256.c:52 | producing n > 0 output bytes permutes the state (n-1)/R times |
| `SpongeSpec.PermutationCallsArePadBlocks` | keccak256.c:50-52 | the permutations Keccak makes are one per block of the padded message, plus (outLen-1)/R while squeezing |
| `SpongeSpec.Keccak256Calls` | keccak256.c:24-51 | with suffix 0x01 the extra padding branch is never taken, and Keccak-256 makes len(M)/136 + 1 permutations |
| `Sponge.PermuteState` | keccak256.c:36-46 | a call of KeccakF1600 replaces the state by f of it and adds one to the ghost call count it is given; every permutation in the sponge goes through it, so each counted figure below is a count of actual calls |
| `Sponge.ZeroFill` | keccak256.c:49 | `FOR(i,200) s[i]=0` leaves the zero state |
| `Sponge.XorIn` | keccak256.c:50 | `FOR(i,b) s[i]^=in[i]` XORs b input bytes into the first b state bytes |
| `Sponge.AbsorbStep` | keccak256.c:50 | one pass of the absorbing loop: min(rem, R) bytes go in; a full block is permuted and resets b to 0, and the consumed input is absorbed |
| `Sponge.Absorb` | keccak256.c:50 | the absorbing loop leaves b = inLen % R < R; the state is the whole blocks absorbed plus the last b bytes XORed in; it permutes inLen / R times, once per full block, also when the input ends on a block boundary |
| `Sponge.XorByte` | keccak256.c:51 | `s[i]^=v` changes only byte i |
| `Sponge.PadAndPermute` | keccak256.c:51 | the padding line leaves PadState: sfx at byte b, one extra permutation exactly when sfx has bit 7 and b == R-1, 0x80 at byte R-1, then the last permutation; it adds two to the call count in the extra-block case and one otherwise |
| `Sponge.CopyOut` | keccak256.c:52 | `FOR(i,b) out[i]=s[i]` copies the first b state bytes to the output and changes nothing else |
| `Sponge.SqueezeStep` | keccak256.c:52 | one pass of the squeezing loop: min(rem, R) bytes are copied out, then a permutation only if output remains |
| `Sponge.SqueezeOut` | keccak256.c:52 | the squeezing loop writes exactly outLen bytes, equal to Squeeze of the state, leaves the rest of out unchanged, and adds (outLen-1)/R permutations to the call count (none for outLen = 0) |
| `Sponge.Keccak` | keccak256.c:48-53 | Keccak writes the sponge output of the first inLen input bytes to out[0..outLen), leaves the rest of out unchanged, and permutes one time per padded block plus once between every two output blocks |
| `Sponge.Keccak256` | keccak256.c:23-25 | KECCAK_256 writes the Keccak-256 digest of the input to out[0..32), leaves the rest of out unchanged, and makes inLen/136 + 1 permutations |
| `Hex.HexDigit` | keccak256.c:80 | a nibble's digit is a lowercase hex digit, and a decimal digit exactly when the nibble is below 10 |
| `Hex.DigitRoundTrip` | keccak256.c:80 | a nibble's digit reads back as that nibble |
| `Hex.DigitOfValue` | keccak256.c:80 | every lowercase hex digit is the digit of its value |
| `Hex.NibblesOf` | keccak256.c:80 | a byte is its high nibble shifted left by 4, OR its low nibble |
| `Hex.ByteHex` | keccak256.c:80 | `"%02x"` of one byte: exactly two characters, the digit of the high nibble then that of the low nibble; `PairOfByte` and `ByteOfPair` state that it is invertible |
| `Hex.ToHex` | keccak256.c:79-80 | the encoding the hex loop builds, two characters per byte; `ToHexDigits` gives character by character what it holds, and `FromToHex` and `ToFromHex` state the round trip |
| `Hex.ToHexDigits` | keccak256.c:79-80 | characters 2i and 2i+1 of the encoding are the digits of the high and the low nibble of byte i |
| `Hex.ToHexIsLower` | keccak256.c:80 | every character of the encoding is in [0-9a-f] |
| `Hex.PairOfByte` | keccak256.c:80 | decoding the two digits of a byte gives the byte |
| `Hex.ByteOfPair` | keccak256.c:80 | encoding the byte of two hex digits gives those two digits |
| `Hex.FromToHex` | keccak256.c:79-81 | the encoding is a lowercase hex string and decodes to the bytes it came from |
| `Hex.ToFromHex` | keccak256.c:79-81 | every lowercase hex string of even length is the encoding of its decoding |
| `Hex.ToHexPrefix` | keccak256.c:79-81 | one more byte adds its two digits to the end of the encoding |
| `Hex.HexDigest` | keccak256.c:78-82 | a 32-byte digest encodes to 64 lowercase hex characters that decode back to it |
| `Hex.FormatByte` | keccak256.c:80 | `snprintf(hex+p,3,"%02x",b)` writes the two digits of b at p and p+1 and a NUL at p+2, and changes nothing else |
| `Hex.FormatHex` | keccak256.c:78-82 | the hex loop and `hex[64]='\0'` leave the 64-digit encoding of the digest followed by a NUL |
| `KeccakHash.RawDigest` | keccak256.c:70-71 | the 32-byte buffer holds the Keccak-256 digest of the input string |
| `KeccakHash.HexResult` | keccak256.c:70-82 | the hex buffer holds the 64 lowercase hex digits of the digest and a NUL; they decode to the digest |

## Left out

- The PHP binding is not modelled: argument parsing, `RETURN_STRINGL` and
  `RETURN_STRING`, `arginfo`, and module registration (lines 55-102). The
  `raw_output` choice is shown by the two methods `KeccakHash.RawDigest` and
  `KeccakHash.HexResult`.
- `snprintf` is modelled only by what `"%02x"` writes for one byte
  (`Hex.FormatByte`). Its return value and its truncation rules are left out.
- The input pointer `in` is only read, so it is modelled as a sequence and
  an offset. The model does not capture `in` or `out` aliasing the state,
  and `Sponge.SqueezeOut` requires the output array to be distinct from the
  state array.
- Sponge.Keccak: integer widths are not modelled. Lengths are `nat` rather
  than `u64`, and `r`, `R` and `b` are `nat` rather than `ui`. The method
  requires `0 < r/8 <= 200`. The C code has no such check: `R == 0` never
  ends the absorbing loop, and `R > 200` writes past the state.
- Sponge.Keccak: the capacity parameter `c` is taken but not used, as in
  the C code.
- Sponge.Keccak: the call counter `calls` and the permutation `f` are ghost
  parameters. `f` is fixed to Keccak-f[1600] by the requires `IsKeccakF(f)`.
  This lets the sponge proofs avoid unfolding the permutation. The count is
  one ghost value threaded through every `Sponge.PermuteState` call, the
  only place the sponge methods call `KeccakF1600`.
- KeccakSpec.KeccakP: on a byte string of any length other than 200 it
  returns the string unchanged. That case never arises, because the sponge
  only permutes 200-byte states.
- SpongeSpec.AbsorbBlocks: it absorbs only whole blocks, and any trailing
  partial block is ignored. Every caller passes a whole number of blocks.
- KeccakState.Rol: defined only for `0 < o < 64`. These are the only
  amounts the permutation uses, and for `o == 0` the shift by 64 is
  undefined in C.
- RoundConstants.LfsrOutputIsRc: stated for the first 255 calls. That
  covers the 168 calls that 24 rounds make.
- Permutation.Round1600: requires `ir < 24`, the rounds that
  `KeccakF1600` makes. The register `R` is passed in and returned, where
  the C code keeps it as a local of `KeccakF1600`.
- Known-answer digests are left out. They would need the permutation to be
  evaluated, and nothing here is executed.
- Security properties of Keccak are left out.

