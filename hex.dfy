/**
 * Hex output of keccak_hash: the 32 digest bytes become 64 lowercase hex
 * characters, two per byte, high nibble first ("%02x"), followed by a NUL
 * terminator in a 65-character buffer.  ToHex is the reference encoding;
 * FromHex decodes it again, and FormatHex is the C loop over the buffer.
 */
module Hex {

  /** A character of the lowercase hex alphabet [0-9a-f]. */
  predicate IsLowerHex(c: char)
  {
    '0' <= c <= '9' || 'a' <= c <= 'f'
  }

  /** The sixteen digits of "%x", in order of value. */
  const Digits: string := "0123456789abcdef"

  /** The lowercase hex digit of a nibble, as "%x" prints it. */
  function HexDigit(n: bv8): (c: char)
    requires n < 16
    ensures IsLowerHex(c)
    ensures n < 10 <==> '0' <= c <= '9'
  {
    Digits[n as int]
  }

  /** The nibble a lowercase hex digit stands for. */
  function DigitValue(c: char): (n: bv8)
    requires IsLowerHex(c)
    ensures n < 16
  {
    if c == '0' then 0 else if c == '1' then 1 else if c == '2' then 2 else if c == '3' then 3
    else if c == '4' then 4 else if c == '5' then 5 else if c == '6' then 6 else if c == '7' then 7
    else if c == '8' then 8 else if c == '9' then 9 else if c == 'a' then 10 else if c == 'b' then 11
    else if c == 'c' then 12 else if c == 'd' then 13 else if c == 'e' then 14 else 15
  }

  /** Each nibble has its own digit, and DigitValue reads it back. */
  lemma DigitRoundTrip(n: bv8)
    requires n < 16
    ensures DigitValue(HexDigit(n)) == n
  {
  }

  /** Every lowercase hex digit is the digit of its value. */
  lemma DigitOfValue(c: char)
    requires IsLowerHex(c)
    ensures HexDigit(DigitValue(c)) == c
  {
  }

  /** The high and low nibbles of a byte. */
  function High(b: bv8): (n: bv8)
    ensures n < 16
  {
    b >> 4
  }

  function Low(b: bv8): (n: bv8)
    ensures n < 16
  {
    b & 0xF
  }

  /** A byte is its high nibble shifted left by 4, OR its low nibble. */
  lemma NibblesOf(b: bv8)
    ensures (High(b) << 4) | Low(b) == b
  {
  }

  /** Only these nibbles give it: joining two nibbles and splitting the byte gives them back. */
  lemma NibblesOfJoin(h: bv8, l: bv8)
    requires h < 16 && l < 16
    ensures High((h << 4) | l) == h && Low((h << 4) | l) == l
  {
  }

  /** "%02x" of one byte: two digits, high nibble first. */
  function ByteHex(b: bv8): (s: string)
    ensures |s| == 2
  {
    [HexDigit(High(b)), HexDigit(Low(b))]
  }

  /** The hex encoding of a byte string, two characters per byte. */
  function ToHex(bs: seq<bv8>): (h: string)
    ensures |h| == 2 * |bs|
    decreases |bs|
  {
    if |bs| == 0 then "" else ToHex(bs[..|bs| - 1]) + ByteHex(bs[|bs| - 1])
  }

  /** Characters 2i and 2i+1 of the encoding are the high and low nibble digits of byte i. */
  lemma {:induction false} ToHexDigits(bs: seq<bv8>, i: nat)
    requires i < |bs|
    ensures ToHex(bs)[2 * i] == HexDigit(High(bs[i]))
    ensures ToHex(bs)[2 * i + 1] == HexDigit(Low(bs[i]))
    decreases |bs|
  {
    NibblesOf(bs[i]);
    if i < |bs| - 1 {
      var init := bs[..|bs| - 1];
      ToHexDigits(init, i);
      assert init[i] == bs[i];
    }
  }

  /** Every character of an encoding is a lowercase hex digit. */
  lemma {:induction false} ToHexIsLower(bs: seq<bv8>)
    ensures forall j :: 0 <= j < |ToHex(bs)| ==> IsLowerHex(ToHex(bs)[j])
    decreases |bs|
  {
    if |bs| > 0 {
      ToHexIsLower(bs[..|bs| - 1]);
    }
  }

  /** A string of lowercase hex digits of even length, as ToHex produces. */
  predicate IsHexString(h: string)
  {
    |h| % 2 == 0 && forall j :: 0 <= j < |h| ==> IsLowerHex(h[j])
  }

  /** The byte that two hex digits stand for. */
  function PairValue(hi: char, lo: char): (b: bv8)
    requires IsLowerHex(hi) && IsLowerHex(lo)
  {
    (DigitValue(hi) << 4) | DigitValue(lo)
  }

  /** Decoding: each pair of digits becomes one byte. */
  function FromHex(h: string): (bs: seq<bv8>)
    requires IsHexString(h)
    ensures |bs| == |h| / 2
    decreases |h|
  {
    if |h| == 0 then [] else
      assert IsHexString(h[..|h| - 2]);
      FromHex(h[..|h| - 2]) + [PairValue(h[|h| - 2], h[|h| - 1])]
  }

  /** Decoding a byte's two digits gives the byte back. */
  lemma PairOfByte(b: bv8)
    ensures IsLowerHex(ByteHex(b)[0]) && IsLowerHex(ByteHex(b)[1])
    ensures PairValue(ByteHex(b)[0], ByteHex(b)[1]) == b
  {
    NibblesOf(b);
    DigitRoundTrip(High(b));
    DigitRoundTrip(Low(b));
  }

  /** Encoding a pair's byte gives the two digits back. */
  lemma ByteOfPair(hi: char, lo: char)
    requires IsLowerHex(hi) && IsLowerHex(lo)
    ensures ByteHex(PairValue(hi, lo)) == [hi, lo]
  {
    NibblesOfJoin(DigitValue(hi), DigitValue(lo));
    DigitOfValue(hi);
    DigitOfValue(lo);
  }

  /** The last two characters of an encoding are the digits of the last byte, and the rest encodes the others. */
  lemma ToHexLast(bs: seq<bv8>)
    requires |bs| > 0
    ensures var h := ToHex(bs); var b := bs[|bs| - 1];
      h[..|h| - 2] == ToHex(bs[..|bs| - 1]) && h[|h| - 2] == ByteHex(b)[0] && h[|h| - 1] == ByteHex(b)[1]
  {
  }

  /** The encoding decodes back to the bytes it came from. */
  lemma {:induction false} FromToHex(bs: seq<bv8>)
    ensures IsHexString(ToHex(bs))
    ensures FromHex(ToHex(bs)) == bs
    decreases |bs|
  {
    ToHexIsLower(bs);
    if |bs| > 0 {
      var init, b := bs[..|bs| - 1], bs[|bs| - 1];
      FromToHex(init);
      ToHexLast(bs);
      PairOfByte(b);
      assert bs == init + [b];
    }
  }

  /** Every lowercase hex string of even length is the encoding of its decoding. */
  lemma {:induction false} ToFromHex(h: string)
    requires IsHexString(h)
    ensures ToHex(FromHex(h)) == h
    decreases |h|
  {
    if |h| > 0 {
      var init, hi, lo := h[..|h| - 2], h[|h| - 2], h[|h| - 1];
      FromHexLast(h);
      ToFromHex(init);
      ToHexSnoc(FromHex(init), PairValue(hi, lo));
      ByteOfPair(hi, lo);
      LastPair(h);
    }
  }

  /** Decoding a nonempty hex string: the bytes of all but its last two digits, then the byte of those two. */
  lemma FromHexLast(h: string)
    requires IsHexString(h) && |h| > 0
    ensures IsHexString(h[..|h| - 2])
    ensures FromHex(h) == FromHex(h[..|h| - 2]) + [PairValue(h[|h| - 2], h[|h| - 1])]
  {
    var init := h[..|h| - 2];
    assert forall j :: 0 <= j < |init| ==> init[j] == h[j];
  }

  /** Appending a byte appends its two digits. */
  lemma ToHexSnoc(bs: seq<bv8>, b: bv8)
    ensures ToHex(bs + [b]) == ToHex(bs) + ByteHex(b)
  {
    assert (bs + [b])[..|bs|] == bs;
  }

  lemma LastPair(h: string)
    requires |h| >= 2
    ensures h == h[..|h| - 2] + [h[|h| - 2], h[|h| - 1]]
  {
  }

  /**
   * snprintf(hex + p, 3, "%02x", b): the two digits of b go to hex[p] and
   * hex[p+1], and the terminating NUL to hex[p+2]; nothing else changes.
   */
  method FormatByte(hex: array<char>, p: nat, b: bv8)
    requires p + 3 <= hex.Length
    modifies hex
    ensures hex[..p + 2] == old(hex[..p]) + ByteHex(b)
    ensures hex[p + 2] == '\0'
    ensures hex[p + 3..] == old(hex[p + 3..])
  {
    var s := ByteHex(b);
    hex[p] := s[0];
    hex[p + 1] := s[1];
    hex[p + 2] := '\0';
  }

  /**
   * The hex loop of keccak_hash: for each of the 32 digest bytes, "%02x" at
   * hex + 2i, then hex[64] = NUL.  The buffer holds the encoding and its
   * terminator.
   */
  method FormatHex(hash: seq<bv8>) returns (hex: array<char>)
    requires |hash| == 32
    ensures hex.Length == 65
    ensures hex[..64] == ToHex(hash)
    ensures hex[64] == '\0'
  {
    hex := new char[65];
    var i: nat := 0;
    while i < 32
      invariant i <= 32
      invariant hex[..2 * i] == ToHex(hash[..i])
    {
      FormatByte(hex, 2 * i, hash[i]);
      ToHexPrefix(hash, i);
      i := i + 1;
    }
    assert hash[..32] == hash;
    hex[64] := '\0';
  }

  /** One more byte of a prefix: two more digits of its encoding. */
  lemma ToHexPrefix(bs: seq<bv8>, i: nat)
    requires i < |bs|
    ensures ToHex(bs[..i + 1]) == ToHex(bs[..i]) + ByteHex(bs[i])
  {
    assert bs[..i + 1][..i] == bs[..i];
  }

  /** The hex digest of keccak_hash: 64 lowercase hex characters that decode to the 32 digest bytes. */
  lemma HexDigest(hash: seq<bv8>)
    requires |hash| == 32
    ensures |ToHex(hash)| == 64 && IsHexString(ToHex(hash))
    ensures FromHex(ToHex(hash)) == hash
  {
    FromToHex(hash);
  }
}
