/**
 * The hashing path of keccak_hash: KECCAK_256 on the input string into a
 * 32-byte buffer, then either the raw 32 bytes or the 64-character hex
 * string.
 */
module KeccakHash {
  import SpongeSpec
  import Sponge
  import opened Hex

  /** KECCAK_256((u8*)data, len, hash) into a fresh 32-byte buffer. */
  method RawDigest(data: seq<bv8>) returns (hash: array<bv8>)
    ensures hash.Length == 32 && hash[..] == SpongeSpec.Keccak256(data)
  {
    hash := new bv8[32];
    var _ := Sponge.Keccak256(data, |data|, hash);
    assert data[..|data|] == data;
    assert hash[..] == hash[..32];
  }

  /**
   * The default (hex) result: the digest followed by the hex loop; the
   * buffer holds 64 lowercase hex digits that decode to the digest, and a
   * terminating NUL.
   */
  method HexResult(data: seq<bv8>) returns (hex: array<char>)
    ensures hex.Length == 65 && hex[64] == '\0'
    ensures hex[..64] == ToHex(SpongeSpec.Keccak256(data))
    ensures IsHexString(hex[..64]) && FromHex(hex[..64]) == SpongeSpec.Keccak256(data)
  {
    var hash := RawDigest(data);
    hex := FormatHex(hash[..]);
    Hex.HexDigest(hash[..]);
  }
}
