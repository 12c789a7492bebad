/**
 * The length model of `vu64`: how many bytes encode a value (`encoded_len`,
 * a table indexed by the value's leading zeros) and how many bytes a first
 * byte announces (`decoded_len`, its leading ones plus one).
 */
module Length {
  import opened Bits

  /** Largest values whose encoding takes 1, 2, ..., 9 bytes. */
  const MAX_LEN1: bv64 := 0x7F
  const MAX_LEN2: bv64 := 0x3FFF
  const MAX_LEN3: bv64 := 0x1F_FFFF
  const MAX_LEN4: bv64 := 0x0FFF_FFFF
  const MAX_LEN5: bv64 := 0x07_FFFF_FFFF
  const MAX_LEN6: bv64 := 0x03FF_FFFF_FFFF
  const MAX_LEN7: bv64 := 0x01_FFFF_FFFF_FFFF
  const MAX_LEN8: bv64 := 0xFF_FFFF_FFFF_FFFF
  const MAX_LEN9: bv64 := 0xFFFF_FFFF_FFFF_FFFF

  /** Maximum length of an encoding in bytes. */
  const MAX_BYTES: nat := 9

  /** The largest value that an `n`-byte encoding can carry: 7 payload bits per byte up to 8 bytes. */
  function MaxLen(n: nat): bv64
    requires 1 <= n <= 9
  {
    if n == 1 then MAX_LEN1
    else if n == 2 then MAX_LEN2
    else if n == 3 then MAX_LEN3
    else if n == 4 then MAX_LEN4
    else if n == 5 then MAX_LEN5
    else if n == 6 then MAX_LEN6
    else if n == 7 then MAX_LEN7
    else if n == 8 then MAX_LEN8
    else MAX_LEN9
  }

  /**
   * The length classes of the format: an encoding takes the least `n` in
   * 1..9 such that `value` does not exceed the largest `n`-byte value.
   */
  function LengthOf(value: bv64): (n: nat)
    ensures 1 <= n <= 9
  {
    if value <= MAX_LEN1 then 1
    else if value <= MAX_LEN2 then 2
    else if value <= MAX_LEN3 then 3
    else if value <= MAX_LEN4 then 4
    else if value <= MAX_LEN5 then 5
    else if value <= MAX_LEN6 then 6
    else if value <= MAX_LEN7 then 7
    else if value <= MAX_LEN8 then 8
    else 9
  }

  /** The length class holds `value`, and the class below it does not: it is the least that fits. */
  lemma LengthOfMinimal(value: bv64)
    ensures value <= MaxLen(LengthOf(value))
    ensures LengthOf(value) > 1 ==> value > MaxLen(LengthOf(value) - 1)
  {
    if value <= MAX_LEN3 {
      LengthOfMinimalShort(value);
    } else if value <= MAX_LEN6 {
      LengthOfMinimalMiddle(value);
    } else {
      LengthOfMinimalLong(value);
    }
  }

  lemma LengthOfMinimalShort(value: bv64)
    requires value <= MAX_LEN3
    ensures value <= MaxLen(LengthOf(value))
    ensures LengthOf(value) > 1 ==> value > MaxLen(LengthOf(value) - 1)
  {
    if value <= MAX_LEN1 {
      assert LengthOf(value) == 1;
    } else if value <= MAX_LEN2 {
      assert LengthOf(value) == 2;
    } else {
      assert LengthOf(value) == 3;
    }
  }

  lemma LengthOfMinimalMiddle(value: bv64)
    requires MAX_LEN3 < value <= MAX_LEN6
    ensures value <= MaxLen(LengthOf(value))
    ensures LengthOf(value) > 1 ==> value > MaxLen(LengthOf(value) - 1)
  {
    if value <= MAX_LEN4 {
      assert LengthOf(value) == 4;
    } else if value <= MAX_LEN5 {
      assert LengthOf(value) == 5;
    } else {
      assert LengthOf(value) == 6;
    }
  }

  lemma LengthOfMinimalLong(value: bv64)
    requires value > MAX_LEN6
    ensures value <= MaxLen(LengthOf(value))
    ensures LengthOf(value) > 1 ==> value > MaxLen(LengthOf(value) - 1)
  {
    if value <= MAX_LEN7 {
      assert LengthOf(value) == 7;
    } else if value <= MAX_LEN8 {
      assert LengthOf(value) == 8;
    } else {
      assert LengthOf(value) == 9;
    }
  }

  /** The length class is the only `n` whose range holds `value` and the range below does not. */
  lemma LengthOfUnique(value: bv64, n: nat)
    requires 1 <= n <= 9 && value <= MaxLen(n)
    requires n > 1 ==> value > MaxLen(n - 1)
    ensures LengthOf(value) == n
  {
    if n == 1 {
    } else if n == 2 {
    } else if n == 3 {
    } else if n == 4 {
    } else if n == 5 {
    } else if n == 6 {
    } else if n == 7 {
    } else if n == 8 {
    } else {
    }
  }

  /**
   * The length classes read off the leading zeros `z` of `value`: it fits
   * in `k <= 8` bytes exactly when `z` is at least `64 - 7 * k`.
   */
  predicate FitsByLeadingZeros(value: bv64, z: bv32)
  {
    && (value <= MAX_LEN1 <==> z >= 57)
    && (value <= MAX_LEN2 <==> z >= 50)
    && (value <= MAX_LEN3 <==> z >= 43)
    && (value <= MAX_LEN4 <==> z >= 36)
    && (value <= MAX_LEN5 <==> z >= 29)
    && (value <= MAX_LEN6 <==> z >= 22)
    && (value <= MAX_LEN7 <==> z >= 15)
    && (value <= MAX_LEN8 <==> z >= 8)
  }

  lemma LeadingZerosFit(value: bv64)
    ensures FitsByLeadingZeros(value, LeadingZeros(value))
  {
    LeadingZerosFit1(value);
    LeadingZerosFit2(value);
    LeadingZerosFit3(value);
    LeadingZerosFit4(value);
    LeadingZerosFit5(value);
    LeadingZerosFit6(value);
    LeadingZerosFit7(value);
    LeadingZerosFit8(value);
  }

  lemma LeadingZerosFit1(value: bv64)
    ensures value <= MAX_LEN1 <==> LeadingZeros(value) >= 57
  {
  }

  lemma LeadingZerosFit2(value: bv64)
    ensures value <= MAX_LEN2 <==> LeadingZeros(value) >= 50
  {
  }

  lemma LeadingZerosFit3(value: bv64)
    ensures value <= MAX_LEN3 <==> LeadingZeros(value) >= 43
  {
  }

  lemma LeadingZerosFit4(value: bv64)
    ensures value <= MAX_LEN4 <==> LeadingZeros(value) >= 36
  {
  }

  lemma LeadingZerosFit5(value: bv64)
    ensures value <= MAX_LEN5 <==> LeadingZeros(value) >= 29
  {
  }

  lemma LeadingZerosFit6(value: bv64)
    ensures value <= MAX_LEN6 <==> LeadingZeros(value) >= 22
  {
  }

  lemma LeadingZerosFit7(value: bv64)
    ensures value <= MAX_LEN7 <==> LeadingZeros(value) >= 15
  {
  }

  lemma LeadingZerosFit8(value: bv64)
    ensures value <= MAX_LEN8 <==> LeadingZeros(value) >= 8
  {
  }

  /**
   * Encoded length indexed by the number of leading zero bits of the value,
   * one row per length class as the source lays it out (the rows are joined
   * with `+` so that the verifier can index them).
   */
  const ENCODED_LEN_TBL: seq<nat> :=
    [9]
    + [9, 9, 9, 9, 9, 9, 9]
    + [8, 8, 8, 8, 8, 8, 8]
    + [7, 7, 7, 7, 7, 7, 7]
    + [6, 6, 6, 6, 6, 6, 6]
    + [5, 5, 5, 5, 5, 5, 5]
    + [4, 4, 4, 4, 4, 4, 4]
    + [3, 3, 3, 3, 3, 3, 3]
    + [2, 2, 2, 2, 2, 2, 2]
    + [1, 1, 1, 1, 1, 1, 1]
    + [1]

  /**
   * Entry `z` of the table is the least `n` whose `7 * n` payload bits
   * (all 64 bits for `n == 9`) hold a value with `z` leading zeros.
   */
  lemma TableEntry(z: nat)
    requires z <= 64
    ensures |ENCODED_LEN_TBL| == 65
    ensures 1 <= ENCODED_LEN_TBL[z] <= 9
    ensures ENCODED_LEN_TBL[z] <= 8 ==> z >= 64 - 7 * ENCODED_LEN_TBL[z]
    ensures ENCODED_LEN_TBL[z] >= 2 ==> z < 64 - 7 * (ENCODED_LEN_TBL[z] - 1)
  {
    if z <= 14 {
      TableRowsLong(z);
    } else if z <= 35 {
      TableRowsMiddle(z);
    } else {
      TableRowsShort(z);
    }
  }

  lemma TableRowsLong(z: nat)
    requires z <= 14
    ensures |ENCODED_LEN_TBL| == 65
    ensures z <= 7 ==> ENCODED_LEN_TBL[z] == 9
    ensures 8 <= z ==> ENCODED_LEN_TBL[z] == 8
  {
  }

  lemma TableRowsMiddle(z: nat)
    requires 15 <= z <= 35
    ensures |ENCODED_LEN_TBL| == 65
    ensures z <= 21 ==> ENCODED_LEN_TBL[z] == 7
    ensures 22 <= z <= 28 ==> ENCODED_LEN_TBL[z] == 6
    ensures 29 <= z ==> ENCODED_LEN_TBL[z] == 5
  {
  }

  lemma TableRowsShort(z: nat)
    requires 36 <= z <= 64
    ensures |ENCODED_LEN_TBL| == 65
    ensures z <= 42 ==> ENCODED_LEN_TBL[z] == 4
    ensures 43 <= z <= 49 ==> ENCODED_LEN_TBL[z] == 3
    ensures 50 <= z <= 56 ==> ENCODED_LEN_TBL[z] == 2
    ensures 57 <= z ==> ENCODED_LEN_TBL[z] == 1
  {
  }

  /** Entry `z` of the table, with the facts `TableEntry` establishes. */
  function TableAt(z: nat): (n: nat)
    requires z <= 64
    ensures 1 <= n <= 9
    ensures n <= 8 ==> z >= 64 - 7 * n
    ensures n >= 2 ==> z < 64 - 7 * (n - 1)
  {
    TableEntry(z);
    ENCODED_LEN_TBL[z]
  }

  /** The table entry for the leading zeros of `value` is the length class of `value`. */
  lemma TableMatchesClass(value: bv64, z: bv32)
    requires z <= 64 && FitsByLeadingZeros(value, z)
    ensures TableAt(z as nat) == LengthOf(value)
  {
  }

  /** `encoded_len`: the table lookup by leading zeros yields the length class of `value`. */
  function EncodedLen(value: bv64): (n: nat)
    ensures n == LengthOf(value)
  {
    LeadingZerosFit(value);
    TableMatchesClass(value, LeadingZeros(value));
    TableAt(LeadingZeros(value) as nat)
  }

  /** A byte whose top `k` bits are set and the rest clear: `!(0xFF >> k)`, spelled out per `k`. */
  function HighOnes(k: nat): bv8
    requires k <= 8
  {
    if k == 0 then 0x00
    else if k == 1 then 0x80
    else if k == 2 then 0xC0
    else if k == 3 then 0xE0
    else if k == 4 then 0xF0
    else if k == 5 then 0xF8
    else if k == 6 then 0xFC
    else if k == 7 then 0xFE
    else 0xFF
  }

  /** The first byte of a `k`-byte encoding: `k - 1` ones, then (for `k <= 8`) a zero. */
  predicate HasPrefix(byte: bv8, k: nat)
    requires 1 <= k <= 9
  {
    if k == 9 then byte == 0xFF else byte & HighOnes(k) == HighOnes(k - 1)
  }

  /** The range of first bytes of a `k`-byte encoding, as the format table lists them. */
  predicate InRange(byte: bv8, k: nat)
    requires 1 <= k <= 9
  {
    if k == 1 then byte <= 0x7F
    else if k == 2 then 0x80 <= byte <= 0xBF
    else if k == 3 then 0xC0 <= byte <= 0xDF
    else if k == 4 then 0xE0 <= byte <= 0xEF
    else if k == 5 then 0xF0 <= byte <= 0xF7
    else if k == 6 then 0xF8 <= byte <= 0xFB
    else if k == 7 then 0xFC <= byte <= 0xFD
    else if k == 8 then byte == 0xFE
    else byte == 0xFF
  }

  /** A byte carries the prefix code of length `k` exactly when it lies in the range of `k`. */
  lemma PrefixRange(byte: bv8, k: nat)
    requires 1 <= k <= 9
    ensures HasPrefix(byte, k) <==> InRange(byte, k)
  {
    if k <= 4 {
      PrefixRangeLow(byte, k);
    } else {
      PrefixRangeHigh(byte, k);
    }
  }

  lemma PrefixRangeLow(byte: bv8, k: nat)
    requires 1 <= k <= 4
    ensures HasPrefix(byte, k) <==> InRange(byte, k)
  {
    if k == 1 {
    } else if k == 2 {
    } else if k == 3 {
    } else {
    }
  }

  lemma PrefixRangeHigh(byte: bv8, k: nat)
    requires 5 <= k <= 9
    ensures HasPrefix(byte, k) <==> InRange(byte, k)
  {
    if k == 5 {
    } else if k == 6 {
    } else if k == 7 {
    } else if k == 8 {
    } else {
    }
  }

  /** The leading ones of a byte select the range the byte lies in. */
  lemma LeadingOnesRange(byte: bv8)
    ensures InRange(byte, LeadingOnes(byte) as nat + 1)
  {
    var n := LeadingOnes(byte) as nat + 1;
    LeadingOnesRanges(byte);
    if n == 1 {
      assert InRange(byte, 1);
    } else if n == 2 {
      assert InRange(byte, 2);
    } else if n == 3 {
      assert InRange(byte, 3);
    } else if n == 4 {
      assert InRange(byte, 4);
    } else if n == 5 {
      assert InRange(byte, 5);
    } else if n == 6 {
      assert InRange(byte, 6);
    } else if n == 7 {
      assert InRange(byte, 7);
    } else if n == 8 {
      assert InRange(byte, 8);
    } else {
      assert InRange(byte, 9);
    }
  }

  lemma LeadingOnesRanges(byte: bv8)
    ensures byte <= 0x7F ==> LeadingOnes(byte) == 0
    ensures 0x80 <= byte <= 0xBF ==> LeadingOnes(byte) == 1
    ensures 0xC0 <= byte <= 0xDF ==> LeadingOnes(byte) == 2
    ensures 0xE0 <= byte <= 0xEF ==> LeadingOnes(byte) == 3
    ensures 0xF0 <= byte <= 0xF7 ==> LeadingOnes(byte) == 4
    ensures 0xF8 <= byte <= 0xFB ==> LeadingOnes(byte) == 5
    ensures 0xFC <= byte <= 0xFD ==> LeadingOnes(byte) == 6
    ensures byte == 0xFE ==> LeadingOnes(byte) == 7
    ensures byte == 0xFF ==> LeadingOnes(byte) == 8
  {
  }

  /**
   * `decoded_len`: the number of bytes a first byte announces is its
   * leading ones plus one, and the byte carries exactly that prefix code.
   */
  function DecodedLen(byte: bv8): (n: nat)
    ensures 1 <= n <= 9
    ensures HasPrefix(byte, n)
  {
    LeadingOnesRange(byte);
    PrefixRange(byte, LeadingOnes(byte) as nat + 1);
    LeadingOnes(byte) as nat + 1
  }

  /** A byte carries the prefix code of one length only. */
  lemma PrefixUnique(byte: bv8, k: nat, m: nat)
    requires 1 <= k <= 9 && 1 <= m <= 9
    requires HasPrefix(byte, k) && HasPrefix(byte, m)
    ensures k == m
  {
    PrefixRange(byte, k);
    PrefixRange(byte, m);
  }

  /** `DecodedLen` is the length whose prefix code the byte carries. */
  lemma DecodedLenOfPrefix(byte: bv8, k: nat)
    requires 1 <= k <= 9 && HasPrefix(byte, k)
    ensures DecodedLen(byte) == k
  {
    PrefixUnique(byte, k, DecodedLen(byte));
  }

  /** The first-byte ranges of each length, as the format table lists them. */
  lemma DecodedLenRanges(byte: bv8)
    ensures byte <= 0x7F ==> DecodedLen(byte) == 1
    ensures 0x80 <= byte <= 0xBF ==> DecodedLen(byte) == 2
    ensures 0xC0 <= byte <= 0xDF ==> DecodedLen(byte) == 3
    ensures 0xE0 <= byte <= 0xEF ==> DecodedLen(byte) == 4
    ensures 0xF0 <= byte <= 0xF7 ==> DecodedLen(byte) == 5
    ensures 0xF8 <= byte <= 0xFB ==> DecodedLen(byte) == 6
    ensures 0xFC <= byte <= 0xFD ==> DecodedLen(byte) == 7
    ensures byte == 0xFE ==> DecodedLen(byte) == 8
    ensures byte == 0xFF ==> DecodedLen(byte) == 9
  {
    LeadingOnesRanges(byte);
  }

  /** The boundary values of every length class, as the source's constants name them. */
  lemma EncodedLenBoundaries()
    ensures EncodedLen(0) == 1
    ensures EncodedLen(MAX_LEN1) == 1 && EncodedLen(MAX_LEN1 + 1) == 2
    ensures EncodedLen(MAX_LEN2) == 2 && EncodedLen(MAX_LEN2 + 1) == 3
    ensures EncodedLen(MAX_LEN3) == 3 && EncodedLen(MAX_LEN3 + 1) == 4
    ensures EncodedLen(MAX_LEN4) == 4 && EncodedLen(MAX_LEN4 + 1) == 5
    ensures EncodedLen(MAX_LEN5) == 5 && EncodedLen(MAX_LEN5 + 1) == 6
    ensures EncodedLen(MAX_LEN6) == 6 && EncodedLen(MAX_LEN6 + 1) == 7
    ensures EncodedLen(MAX_LEN7) == 7 && EncodedLen(MAX_LEN7 + 1) == 8
    ensures EncodedLen(MAX_LEN8) == 8 && EncodedLen(MAX_LEN8 + 1) == 9
    ensures EncodedLen(MAX_LEN9) == 9
  {
    LengthOfUnique(0, 1);
    LengthOfUnique(MAX_LEN1, 1);
    LengthOfUnique(MAX_LEN1 + 1, 2);
    LengthOfUnique(MAX_LEN2, 2);
    LengthOfUnique(MAX_LEN2 + 1, 3);
    LengthOfUnique(MAX_LEN3, 3);
    LengthOfUnique(MAX_LEN3 + 1, 4);
    LengthOfUnique(MAX_LEN4, 4);
    LengthOfUnique(MAX_LEN4 + 1, 5);
    LengthOfUnique(MAX_LEN5, 5);
    LengthOfUnique(MAX_LEN5 + 1, 6);
    LengthOfUnique(MAX_LEN6, 6);
    LengthOfUnique(MAX_LEN6 + 1, 7);
    LengthOfUnique(MAX_LEN7, 7);
    LengthOfUnique(MAX_LEN7 + 1, 8);
    LengthOfUnique(MAX_LEN8, 8);
    LengthOfUnique(MAX_LEN8 + 1, 9);
    LengthOfUnique(MAX_LEN9, 9);
  }
}
