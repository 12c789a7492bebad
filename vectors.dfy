/**
 * Fixed encodings from the crate's documentation and tests, and the
 * redundant encodings that the tests expect a decoder to reject.
 */
module Vectors {
  import opened Bits
  import opened Length
  import opened Layout
  import opened Format
  import Codec
  import Zigzag
  import Signed

  lemma EncodedZero()
    ensures Encoded(0) == [0x00]
  {
  }

  lemma EncodedSevenBits()
    ensures Encoded(0x7F) == [0x7F]
  {
  }

  lemma EncodedEightBits()
    ensures Encoded(0x80) == [0x80, 0x02]
  {
  }

  lemma EncodedTwoBytes()
    ensures Encoded(0x0f0f) == [0x8F, 0x3C]
  {
  }

  lemma EncodedFourBytes()
    ensures Encoded(0x0f0f_f0f0) == [0xE0, 0x0F, 0xFF, 0xF0]
  {
  }

  lemma EncodedSevenBytes()
    ensures Encoded(0x0f0f_f0f0_0f0f) == [0xFD, 0x87, 0x07, 0x78, 0xF8, 0x87, 0x07]
  {
  }

  lemma EncodedNineBytes()
    ensures Encoded(0x0f0f_f0f0_0f0f_f0f0) == [0xFF, 0xF0, 0xF0, 0x0F, 0x0F, 0xF0, 0xF0, 0x0F, 0x0F]
  {
  }

  lemma EncodedMax()
    ensures Encoded(0xFFFF_FFFF_FFFF_FFFF) == [0xFF, 0xFF, 0xFF, 0xFF, 0xFF, 0xFF, 0xFF, 0xFF, 0xFF]
  {
  }

  /** A buffer whose first byte announces `length` bytes and whose bytes assemble `v`. */
  lemma Announced(bytes: seq<bv8>, length: nat, v: bv64)
    requires 1 <= length <= 9 && |bytes| >= length && HasPrefix(bytes[0], length)
    requires Unpack(length, bytes[0], bytes[1..length]) == v
    ensures DecodingAsWritten(bytes) == Ok(v)
    ensures Decoding(bytes) == RejectRedundant(length, v)
  {
    DecodedLenOfPrefix(bytes[0], length);
  }

  lemma RedundantOne()
    ensures DecodingAsWritten([0x81, 0x00]) == Ok(1)
    ensures Encoded(1) == [0x01]
    ensures Decoding([0x81, 0x00]) == Err(RedundantEncode)
  {
    var b: seq<bv8> := [0x81, 0x00];
    assert b[1..2] == [0x00];
    Announced(b, 2, 1);
  }

  /** The three bytes hold 4096 (0x80 << 5), not the 128 that a comment beside this vector names. */
  lemma RedundantTwoBytes()
    ensures DecodingAsWritten([0xC0, 0x80, 0x00]) == Ok(4096)
    ensures Encoded(4096) == [0x80, 0x40]
    ensures Decoding([0xC0, 0x80, 0x00]) == Err(RedundantEncode)
  {
    var b: seq<bv8> := [0xC0, 0x80, 0x00];
    assert b[1..3] == [0x80, 0x00];
    Announced(b, 3, 4096);
  }

  lemma RedundantThreeBytes()
    ensures DecodingAsWritten([0xDD, 0x00, 0x00]) == Ok(29)
    ensures Encoded(29) == [0x1D]
    ensures Decoding([0xDD, 0x00, 0x00]) == Err(RedundantEncode)
  {
    var b: seq<bv8> := [0xDD, 0x00, 0x00];
    assert b[1..3] == [0x00, 0x00];
    Announced(b, 3, 29);
  }

  // Nine-byte buffers from the crate's redundancy tests: each announces a
  // longer encoding than its value needs.

  lemma RedundantPrefixOneByte()
    ensures Decoding([0x8B, 0x01, 0x00, 0x00, 0x00, 0x00, 0x00, 0x00, 0x00]) == Err(RedundantEncode)
  {
    var b: seq<bv8> := [0x8B, 0x01, 0x00, 0x00, 0x00, 0x00, 0x00, 0x00, 0x00];
    assert b[1..2] == [0x01];
    Announced(b, 2, 0x4B);
  }

  lemma RedundantPrefixTwoBytesA()
    ensures Decoding([0x92, 0x00, 0x00, 0x00, 0x00, 0x00, 0x00, 0x00, 0x00]) == Err(RedundantEncode)
  {
    var b: seq<bv8> := [0x92, 0x00, 0x00, 0x00, 0x00, 0x00, 0x00, 0x00, 0x00];
    assert b[1..2] == [0x00];
    Announced(b, 2, 0x12);
  }

  lemma RedundantPrefixTwoBytesB()
    ensures Decoding([0xA0, 0x00, 0x00, 0x00, 0x00, 0x00, 0x00, 0x00, 0x00]) == Err(RedundantEncode)
  {
    var b: seq<bv8> := [0xA0, 0x00, 0x00, 0x00, 0x00, 0x00, 0x00, 0x00, 0x00];
    assert b[1..2] == [0x00];
    Announced(b, 2, 0x20);
  }

  lemma RedundantPrefixThreeBytesA()
    ensures Decoding([0xD8, 0x02, 0x00, 0x00, 0x00, 0x00, 0x00, 0x00, 0x00]) == Err(RedundantEncode)
  {
    var b: seq<bv8> := [0xD8, 0x02, 0x00, 0x00, 0x00, 0x00, 0x00, 0x00, 0x00];
    assert b[1..3] == [0x02, 0x00];
    Announced(b, 3, 0x58);
  }

  lemma RedundantPrefixThreeBytesB()
    ensures Decoding([0xDD, 0x00, 0x00, 0x00, 0x00, 0x00, 0x00, 0x00, 0x00]) == Err(RedundantEncode)
  {
    var b: seq<bv8> := [0xDD, 0x00, 0x00, 0x00, 0x00, 0x00, 0x00, 0x00, 0x00];
    assert b[1..3] == [0x00, 0x00];
    Announced(b, 3, 0x1D);
  }

  lemma RedundantPrefixFourBytesA()
    ensures Decoding([0xE0, 0xE4, 0x51, 0x00, 0x00, 0x00, 0x00, 0x00, 0x00]) == Err(RedundantEncode)
  {
    var b: seq<bv8> := [0xE0, 0xE4, 0x51, 0x00, 0x00, 0x00, 0x00, 0x00, 0x00];
    assert b[1..4] == [0xE4, 0x51, 0x00];
    Announced(b, 4, 0x51E40);
  }

  lemma RedundantPrefixFourBytesB()
    ensures Decoding([0xE0, 0x02, 0x00, 0x00, 0x00, 0x00, 0x00, 0x00, 0x00]) == Err(RedundantEncode)
  {
    var b: seq<bv8> := [0xE0, 0x02, 0x00, 0x00, 0x00, 0x00, 0x00, 0x00, 0x00];
    assert b[1..4] == [0x02, 0x00, 0x00];
    Announced(b, 4, 0x20);
  }

  // `decode3` on the same nine-byte buffers, the eight bytes after the first
  // read as one little-endian word, rejects them too.

  lemma RedundantWordOneByte()
    ensures Codec.Decode3(0x8B, 0x01) == Err(RedundantEncode)
  {
    DecodedLenOfPrefix(0x8B, 2);
  }

  lemma RedundantWordTwoBytesA()
    ensures Codec.Decode3(0x92, 0x00) == Err(RedundantEncode)
  {
    DecodedLenOfPrefix(0x92, 2);
  }

  lemma RedundantWordTwoBytesB()
    ensures Codec.Decode3(0xA0, 0x00) == Err(RedundantEncode)
  {
    DecodedLenOfPrefix(0xA0, 2);
  }

  lemma RedundantWordThreeBytesA()
    ensures Codec.Decode3(0xD8, 0x02) == Err(RedundantEncode)
  {
    DecodedLenOfPrefix(0xD8, 3);
  }

  lemma RedundantWordThreeBytesB()
    ensures Codec.Decode3(0xDD, 0x00) == Err(RedundantEncode)
  {
    DecodedLenOfPrefix(0xDD, 3);
  }

  lemma RedundantWordFourBytesA()
    ensures Codec.Decode3(0xE0, 0x51E4) == Err(RedundantEncode)
  {
    DecodedLenOfPrefix(0xE0, 4);
  }

  lemma RedundantWordFourBytesB()
    ensures Codec.Decode3(0xE0, 0x02) == Err(RedundantEncode)
  {
    DecodedLenOfPrefix(0xE0, 4);
  }

  /** The check on values at and below the boundaries of their length classes. */
  lemma CheckResultExamples()
    ensures CheckResultWithLength(2, 123456789) == Ok(123456789)
    ensures CheckResultWithLength(9, 123456789) == Err(LeadingOnes)
    ensures CheckResultWithLength(1, 100) == Ok(100)
    ensures CheckResultWithLength(2, 0x80) == Ok(0x80)
    ensures CheckResultWithLength(2, 0x7F) == Err(LeadingOnes)
    ensures CheckResultWithLength(9, 0xFFFF_FFFF_FFFF_FFFF) == Ok(0xFFFF_FFFF_FFFF_FFFF)
    ensures CheckResultWithLength(9, 0xFF_FFFF_FFFF_FFFF) == Err(LeadingOnes)
  {
  }

  /**
   * Lengths no decoder passes, as a release build checks them: the shift
   * amount of length 0 wraps to 57, that of length 11 (70) is masked to 6,
   * and that of length 38 (259) wraps to 3.
   */
  lemma ShiftAmountWraps()
    ensures ShiftAmount(0) == 57
    ensures ShiftAmount(11) == 6
    ensures ShiftAmount(38) == 3
  {
  }

  lemma CheckResultLengthZero()
    ensures CheckResultWithLength(0, 0x01FF_FFFF_FFFF_FFFF) == Err(LeadingOnes)
    ensures CheckResultWithLength(0, 0x0200_0000_0000_0000) == Ok(0x0200_0000_0000_0000)
  {
    ShiftAmountWraps();
  }

  lemma CheckResultLengthEleven()
    ensures CheckResultWithLength(11, 63) == Err(LeadingOnes)
    ensures CheckResultWithLength(11, 64) == Ok(64)
  {
    ShiftAmountWraps();
  }

  lemma CheckResultLengthThirtyEight()
    ensures CheckResultWithLength(38, 7) == Err(LeadingOnes)
    ensures CheckResultWithLength(38, 8) == Ok(8)
  {
    ShiftAmountWraps();
  }

  lemma EmptyIsTruncated()
    ensures Decoding([]) == Err(Truncated)
  {
  }

  // The signed vectors: 0x0f0f_f0f0 and its negation, written and read back.

  lemma SignedPositive()
    ensures Zigzag.Encode(0x0f0f_f0f0) == 0x1E1F_E1E0
    ensures Encoded(Zigzag.Encode(0x0f0f_f0f0)) == [0xF0, 0x3C, 0xFC, 0xC3, 0x03]
    ensures Signed.Decoding([0xF0, 0x3C, 0xFC, 0xC3, 0x03]) == Ok(0x0f0f_f0f0)
  {
    Signed.RoundTrip(0x0f0f_f0f0, []);
    var s: seq<bv8> := [0xF0, 0x3C, 0xFC, 0xC3, 0x03];
    assert s + [] == s;
  }

  lemma SignedNegative()
    ensures Zigzag.Encode(0 - 0x0f0f_f0f0) == 0x1E1F_E1DF
    ensures Encoded(Zigzag.Encode(0 - 0x0f0f_f0f0)) == [0xF7, 0x3B, 0xFC, 0xC3, 0x03]
    ensures Signed.Decoding([0xF7, 0x3B, 0xFC, 0xC3, 0x03]) == Ok(0 - 0x0f0f_f0f0)
  {
    Signed.RoundTrip(0 - 0x0f0f_f0f0, []);
    var s: seq<bv8> := [0xF7, 0x3B, 0xFC, 0xC3, 0x03];
    assert s + [] == s;
  }
}
