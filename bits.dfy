/**
 * Bit-level primitives of the Rust standard library that the codec relies on:
 * `u64::leading_zeros`, `u8::leading_ones`, the truncating cast `as u8`,
 * and `u64::to_le_bytes` / `u64::from_le_bytes`.
 * A `u64` is a `bv64` and a `u8` a `bv8`, so shifts and casts truncate
 * exactly as they do in Rust.
 */
module Bits {

  /**
   * `u64::leading_zeros`, computed by the usual halving search: whenever the
   * upper half of the remaining window is empty, count it and shift it out.
   * The count is a `u32` in Rust, so it is a `bv32` here.
   */
  function LeadingZeros(x: bv64): (n: bv32)
    ensures n <= 64
    ensures n == 64 <==> x == 0
  {
    if x == 0 then 64 else
    var (n1, x1) := if x >> 32 == 0 then (32, x << 32) else (0, x);
    var (n2, x2) := if x1 >> 48 == 0 then (n1 + 16, x1 << 16) else (n1, x1);
    var (n3, x3) := if x2 >> 56 == 0 then (n2 + 8, x2 << 8) else (n2, x2);
    var (n4, x4) := if x3 >> 60 == 0 then (n3 + 4, x3 << 4) else (n3, x3);
    var (n5, x5) := if x4 >> 62 == 0 then (n4 + 2, x4 << 2) else (n4, x4);
    if x5 >> 63 == 0 then n5 + 1 else n5
  }

  /**
   * The search counts the zero bits above the highest set bit: bit
   * `63 - n` of `x` is set and every bit above it is clear.
   */
  lemma LeadingZerosCounts(x: bv64)
    ensures LeadingZeros(x) < 64 ==> x >> (63 - LeadingZeros(x)) == 1
    ensures LeadingZeros(x) > 0 ==> x >> (64 - LeadingZeros(x)) == 0
  {
    if x == 0 {
    } else if x >> 56 != 0 {
      HighestInByte7(x);
    } else if x >> 48 != 0 {
      HighestInByte6(x);
    } else if x >> 40 != 0 {
      HighestInByte5(x);
    } else if x >> 32 != 0 {
      HighestInByte4(x);
    } else if x >> 24 != 0 {
      HighestInByte3(x);
    } else if x >> 16 != 0 {
      HighestInByte2(x);
    } else if x >> 8 != 0 {
      HighestInByte1(x);
    } else {
      HighestInByte0(x);
    }
  }

  /** `LeadingZerosCounts` when the highest set bit lies in byte 0. */
  lemma HighestInByte0(x: bv64)
    requires x != 0 && x >> 8 == 0
    ensures x >> (63 - LeadingZeros(x)) == 1
    ensures LeadingZeros(x) > 0 ==> x >> (64 - LeadingZeros(x)) == 0
  {
    if x >> 7 == 1 {
      assert LeadingZeros(x) == 56;
    } else if x >> 6 == 1 {
      assert LeadingZeros(x) == 57;
    } else if x >> 5 == 1 {
      assert LeadingZeros(x) == 58;
    } else if x >> 4 == 1 {
      assert LeadingZeros(x) == 59;
    } else if x >> 3 == 1 {
      assert LeadingZeros(x) == 60;
    } else if x >> 2 == 1 {
      assert LeadingZeros(x) == 61;
    } else if x >> 1 == 1 {
      assert LeadingZeros(x) == 62;
    } else {
      assert LeadingZeros(x) == 63;
    }
  }

  /** `LeadingZerosCounts` when the highest set bit lies in byte 1. */
  lemma HighestInByte1(x: bv64)
    requires x >> 8 != 0 && x >> 16 == 0
    ensures x >> (63 - LeadingZeros(x)) == 1
    ensures LeadingZeros(x) > 0 ==> x >> (64 - LeadingZeros(x)) == 0
  {
    if x >> 15 == 1 {
      assert LeadingZeros(x) == 48;
    } else if x >> 14 == 1 {
      assert LeadingZeros(x) == 49;
    } else if x >> 13 == 1 {
      assert LeadingZeros(x) == 50;
    } else if x >> 12 == 1 {
      assert LeadingZeros(x) == 51;
    } else if x >> 11 == 1 {
      assert LeadingZeros(x) == 52;
    } else if x >> 10 == 1 {
      assert LeadingZeros(x) == 53;
    } else if x >> 9 == 1 {
      assert LeadingZeros(x) == 54;
    } else {
      assert LeadingZeros(x) == 55;
    }
  }

  /** `LeadingZerosCounts` when the highest set bit lies in byte 2. */
  lemma HighestInByte2(x: bv64)
    requires x >> 16 != 0 && x >> 24 == 0
    ensures x >> (63 - LeadingZeros(x)) == 1
    ensures LeadingZeros(x) > 0 ==> x >> (64 - LeadingZeros(x)) == 0
  {
    if x >> 23 == 1 {
      assert LeadingZeros(x) == 40;
    } else if x >> 22 == 1 {
      assert LeadingZeros(x) == 41;
    } else if x >> 21 == 1 {
      assert LeadingZeros(x) == 42;
    } else if x >> 20 == 1 {
      assert LeadingZeros(x) == 43;
    } else if x >> 19 == 1 {
      assert LeadingZeros(x) == 44;
    } else if x >> 18 == 1 {
      assert LeadingZeros(x) == 45;
    } else if x >> 17 == 1 {
      assert LeadingZeros(x) == 46;
    } else {
      assert LeadingZeros(x) == 47;
    }
  }

  /** `LeadingZerosCounts` when the highest set bit lies in byte 3. */
  lemma HighestInByte3(x: bv64)
    requires x >> 24 != 0 && x >> 32 == 0
    ensures x >> (63 - LeadingZeros(x)) == 1
    ensures LeadingZeros(x) > 0 ==> x >> (64 - LeadingZeros(x)) == 0
  {
    if x >> 31 == 1 {
      assert LeadingZeros(x) == 32;
    } else if x >> 30 == 1 {
      assert LeadingZeros(x) == 33;
    } else if x >> 29 == 1 {
      assert LeadingZeros(x) == 34;
    } else if x >> 28 == 1 {
      assert LeadingZeros(x) == 35;
    } else if x >> 27 == 1 {
      assert LeadingZeros(x) == 36;
    } else if x >> 26 == 1 {
      assert LeadingZeros(x) == 37;
    } else if x >> 25 == 1 {
      assert LeadingZeros(x) == 38;
    } else {
      assert LeadingZeros(x) == 39;
    }
  }

  /** `LeadingZerosCounts` when the highest set bit lies in byte 4. */
  lemma HighestInByte4(x: bv64)
    requires x >> 32 != 0 && x >> 40 == 0
    ensures x >> (63 - LeadingZeros(x)) == 1
    ensures LeadingZeros(x) > 0 ==> x >> (64 - LeadingZeros(x)) == 0
  {
    if x >> 39 == 1 {
      assert LeadingZeros(x) == 24;
    } else if x >> 38 == 1 {
      assert LeadingZeros(x) == 25;
    } else if x >> 37 == 1 {
      assert LeadingZeros(x) == 26;
    } else if x >> 36 == 1 {
      assert LeadingZeros(x) == 27;
    } else if x >> 35 == 1 {
      assert LeadingZeros(x) == 28;
    } else if x >> 34 == 1 {
      assert LeadingZeros(x) == 29;
    } else if x >> 33 == 1 {
      assert LeadingZeros(x) == 30;
    } else {
      assert LeadingZeros(x) == 31;
    }
  }

  /** `LeadingZerosCounts` when the highest set bit lies in byte 5. */
  lemma HighestInByte5(x: bv64)
    requires x >> 40 != 0 && x >> 48 == 0
    ensures x >> (63 - LeadingZeros(x)) == 1
    ensures LeadingZeros(x) > 0 ==> x >> (64 - LeadingZeros(x)) == 0
  {
    if x >> 47 == 1 {
      assert LeadingZeros(x) == 16;
    } else if x >> 46 == 1 {
      assert LeadingZeros(x) == 17;
    } else if x >> 45 == 1 {
      assert LeadingZeros(x) == 18;
    } else if x >> 44 == 1 {
      assert LeadingZeros(x) == 19;
    } else if x >> 43 == 1 {
      assert LeadingZeros(x) == 20;
    } else if x >> 42 == 1 {
      assert LeadingZeros(x) == 21;
    } else if x >> 41 == 1 {
      assert LeadingZeros(x) == 22;
    } else {
      assert LeadingZeros(x) == 23;
    }
  }

  /** `LeadingZerosCounts` when the highest set bit lies in byte 6. */
  lemma HighestInByte6(x: bv64)
    requires x >> 48 != 0 && x >> 56 == 0
    ensures x >> (63 - LeadingZeros(x)) == 1
    ensures LeadingZeros(x) > 0 ==> x >> (64 - LeadingZeros(x)) == 0
  {
    if x >> 55 == 1 {
      assert LeadingZeros(x) == 8;
    } else if x >> 54 == 1 {
      assert LeadingZeros(x) == 9;
    } else if x >> 53 == 1 {
      assert LeadingZeros(x) == 10;
    } else if x >> 52 == 1 {
      assert LeadingZeros(x) == 11;
    } else if x >> 51 == 1 {
      assert LeadingZeros(x) == 12;
    } else if x >> 50 == 1 {
      assert LeadingZeros(x) == 13;
    } else if x >> 49 == 1 {
      assert LeadingZeros(x) == 14;
    } else {
      assert LeadingZeros(x) == 15;
    }
  }

  /** `LeadingZerosCounts` when the highest set bit lies in byte 7. */
  lemma HighestInByte7(x: bv64)
    requires x >> 56 != 0
    ensures x >> (63 - LeadingZeros(x)) == 1
    ensures LeadingZeros(x) > 0 ==> x >> (64 - LeadingZeros(x)) == 0
  {
    if x >> 63 == 1 {
      assert LeadingZeros(x) == 0;
    } else if x >> 62 == 1 {
      assert LeadingZeros(x) == 1;
    } else if x >> 61 == 1 {
      assert LeadingZeros(x) == 2;
    } else if x >> 60 == 1 {
      assert LeadingZeros(x) == 3;
    } else if x >> 59 == 1 {
      assert LeadingZeros(x) == 4;
    } else if x >> 58 == 1 {
      assert LeadingZeros(x) == 5;
    } else if x >> 57 == 1 {
      assert LeadingZeros(x) == 6;
    } else {
      assert LeadingZeros(x) == 7;
    }
  }

  /** A byte widened to 64 bits has at least 56 leading zeros. */
  lemma WidenedByteLeadingZeros(c: bv8)
    ensures LeadingZeros(c as bv64) >= 56
  {
  }

  /**
   * `u8::leading_ones`: the leading zeros of the complement, counted within
   * 8 bits. Like the source's count it is a `u32`.
   */
  function LeadingOnes(b: bv8): (n: bv32)
    ensures n <= 8
  {
    WidenedByteLeadingZeros(!b);
    LeadingZeros((!b) as bv64) - 56
  }

  /**
   * The count is the run of set bits at the top of the byte: its top `n`
   * bits are all set, and the bit below them is clear.
   */
  lemma LeadingOnesCounts(b: bv8)
    ensures LeadingOnes(b) > 0 ==> b >> (8 - LeadingOnes(b)) == 0xFF >> (8 - LeadingOnes(b))
    ensures LeadingOnes(b) < 8 ==> (b >> (7 - LeadingOnes(b))) & 1 == 0
  {
    if b <= 0x7F {
      assert LeadingOnes(b) == 0;
    } else if b <= 0xBF {
      assert LeadingOnes(b) == 1;
    } else if b <= 0xDF {
      assert LeadingOnes(b) == 2;
    } else if b <= 0xEF {
      assert LeadingOnes(b) == 3;
    } else if b <= 0xF7 {
      assert LeadingOnes(b) == 4;
    } else if b <= 0xFB {
      assert LeadingOnes(b) == 5;
    } else if b <= 0xFD {
      assert LeadingOnes(b) == 6;
    } else if b <= 0xFE {
      assert LeadingOnes(b) == 7;
    } else {
      assert LeadingOnes(b) == 8;
    }
  }

  /** The truncating cast `x as u8`: the least significant byte. */
  function LowByte(x: bv64): bv8
  {
    (x & 0xFF) as bv8
  }

  /** `u64::to_le_bytes`. */
  function ToLeBytes(x: bv64): (b: seq<bv8>)
    ensures |b| == 8
  {
    [LowByte(x), LowByte(x >> 8), LowByte(x >> 16), LowByte(x >> 24),
     LowByte(x >> 32), LowByte(x >> 40), LowByte(x >> 48), LowByte(x >> 56)]
  }

  /** `u64::from_le_bytes`. */
  function FromLeBytes(b: seq<bv8>): bv64
    requires |b| == 8
  {
    (b[0] as bv64) | ((b[1] as bv64) << 8) | ((b[2] as bv64) << 16) | ((b[3] as bv64) << 24)
    | ((b[4] as bv64) << 32) | ((b[5] as bv64) << 40) | ((b[6] as bv64) << 48) | ((b[7] as bv64) << 56)
  }

  lemma FromToLeBytes(x: bv64)
    ensures FromLeBytes(ToLeBytes(x)) == x
  {
  }

  lemma ToFromLeBytes(b: seq<bv8>)
    requires |b| == 8
    ensures ToLeBytes(FromLeBytes(b)) == b
  {
  }

  /** Byte `i` of `s`, or zero past the end of `s`. */
  function ByteAt(s: seq<bv8>, i: nat): bv8
  {
    if i < |s| then s[i] else 0
  }

  /** `s` filled up with zeros to 8 bytes, as a caller fills a `[0u8; 8]` buffer. */
  function Padded(s: seq<bv8>): (p: seq<bv8>)
    ensures |p| == 8
  {
    [ByteAt(s, 0), ByteAt(s, 1), ByteAt(s, 2), ByteAt(s, 3),
     ByteAt(s, 4), ByteAt(s, 5), ByteAt(s, 6), ByteAt(s, 7)]
  }

  /** The little-endian value of at most 8 bytes: `from_le_bytes` of them padded with zeros. */
  function LeValue(s: seq<bv8>): bv64
    requires |s| <= 8
  {
    FromLeBytes(Padded(s))
  }

  /** The largest value that `n` bytes hold. */
  function ByteMax(n: nat): bv64
    requires n <= 8
  {
    if n == 0 then 0
    else if n == 1 then 0xFF
    else if n == 2 then 0xFFFF
    else if n == 3 then 0xFF_FFFF
    else if n == 4 then 0xFFFF_FFFF
    else if n == 5 then 0xFF_FFFF_FFFF
    else if n == 6 then 0xFFFF_FFFF_FFFF
    else if n == 7 then 0xFF_FFFF_FFFF_FFFF
    else 0xFFFF_FFFF_FFFF_FFFF
  }

  lemma FromLeBytesShifted(p: seq<bv8>, q: seq<bv8>, b: bv8)
    requires |p| == 8 && |q| == 8 && p[7] == 0
    requires q[0] == b && forall i :: 1 <= i < 8 ==> q[i] == p[i - 1]
    ensures FromLeBytes(q) == (FromLeBytes(p) << 8) | (b as bv64)
  {
    assert q[1] == p[0] && q[2] == p[1] && q[3] == p[2] && q[4] == p[3];
    assert q[5] == p[4] && q[6] == p[5] && q[7] == p[6];
  }

  /** One step of the source's accumulation loops `val = val << 8 | b`. */
  lemma LeValueCons(b: bv8, s: seq<bv8>)
    requires |s| <= 7
    ensures LeValue([b] + s) == (LeValue(s) << 8) | (b as bv64)
  {
    var p, q := Padded(s), Padded([b] + s);
    forall i | 1 <= i < 8
      ensures q[i] == p[i - 1]
    {
      PaddedAt(s, i - 1);
      PaddedAt([b] + s, i);
      ByteAtCons(b, s, i);
    }
    PaddedAt([b] + s, 0);
    FromLeBytesShifted(p, q, b);
  }

  lemma PaddedAt(s: seq<bv8>, i: nat)
    requires i < 8
    ensures Padded(s)[i] == ByteAt(s, i)
  {
  }

  lemma ByteAtCons(b: bv8, s: seq<bv8>, i: nat)
    requires 1 <= i
    ensures ByteAt([b] + s, i) == ByteAt(s, i - 1)
  {
  }

  /** The little-endian value of `n` bytes fits in `n` bytes. */
  lemma LeValueBound(s: seq<bv8>)
    requires |s| <= 8
    ensures LeValue(s) <= ByteMax(|s|)
  {
    FromLeBytesBound(Padded(s), |s|);
  }

  lemma FromLeBytesBound(p: seq<bv8>, n: nat)
    requires |p| == 8 && n <= 8
    requires forall i :: n <= i < 8 ==> p[i] == 0
    ensures FromLeBytes(p) <= ByteMax(n)
  {
    if n <= 4 {
      FromLeBytesBoundLow(p, n);
    } else {
      FromLeBytesBoundHigh(p, n);
    }
  }

  lemma FromLeBytesBoundLow(p: seq<bv8>, n: nat)
    requires |p| == 8 && n <= 4
    requires forall i :: n <= i < 8 ==> p[i] == 0
    ensures FromLeBytes(p) <= ByteMax(n)
  {
    if n == 0 {
    } else if n == 1 {
    } else if n == 2 {
    } else if n == 3 {
    } else {
    }
  }

  lemma FromLeBytesBoundHigh(p: seq<bv8>, n: nat)
    requires |p| == 8 && 5 <= n <= 8
    requires forall i :: n <= i < 8 ==> p[i] == 0
    ensures FromLeBytes(p) <= ByteMax(n)
  {
    if n == 5 {
    } else if n == 6 {
    } else if n == 7 {
    } else {
    }
  }

  /** The first `n` bytes of `to_le_bytes(x)` give back `x` when `x` fits in `n` bytes. */
  lemma LeValueOfLeBytes(x: bv64, n: nat)
    requires n <= 8 && x <= ByteMax(n)
    ensures LeValue(ToLeBytes(x)[..n]) == x
  {
    LeBytesZerosAbove(x, n);
    PaddedPrefix(ToLeBytes(x), n);
    FromToLeBytes(x);
  }

  lemma LeBytesZerosAbove(x: bv64, n: nat)
    requires n <= 8 && x <= ByteMax(n)
    ensures forall i :: n <= i < 8 ==> ToLeBytes(x)[i] == 0
  {
    if n <= 3 {
      LeBytesZerosAboveLow(x, n);
    } else if n < 8 {
      LeBytesZerosAboveHigh(x, n);
    }
  }

  lemma LeBytesZerosAboveLow(x: bv64, n: nat)
    requires n <= 3 && x <= ByteMax(n)
    ensures forall i :: n <= i < 8 ==> ToLeBytes(x)[i] == 0
  {
    if n == 0 {
      assert ToLeBytes(x)[0] == 0 && ToLeBytes(x)[1] == 0 && ToLeBytes(x)[2] == 0 && ToLeBytes(x)[3] == 0 && ToLeBytes(x)[4] == 0 && ToLeBytes(x)[5] == 0 && ToLeBytes(x)[6] == 0 && ToLeBytes(x)[7] == 0;
    } else if n == 1 {
      assert ToLeBytes(x)[1] == 0 && ToLeBytes(x)[2] == 0 && ToLeBytes(x)[3] == 0 && ToLeBytes(x)[4] == 0 && ToLeBytes(x)[5] == 0 && ToLeBytes(x)[6] == 0 && ToLeBytes(x)[7] == 0;
    } else if n == 2 {
      assert ToLeBytes(x)[2] == 0 && ToLeBytes(x)[3] == 0 && ToLeBytes(x)[4] == 0 && ToLeBytes(x)[5] == 0 && ToLeBytes(x)[6] == 0 && ToLeBytes(x)[7] == 0;
    } else {
      assert ToLeBytes(x)[3] == 0 && ToLeBytes(x)[4] == 0 && ToLeBytes(x)[5] == 0 && ToLeBytes(x)[6] == 0 && ToLeBytes(x)[7] == 0;
    }
  }

  lemma LeBytesZerosAboveHigh(x: bv64, n: nat)
    requires 4 <= n <= 7 && x <= ByteMax(n)
    ensures forall i :: n <= i < 8 ==> ToLeBytes(x)[i] == 0
  {
    if n == 4 {
      assert ToLeBytes(x)[4] == 0 && ToLeBytes(x)[5] == 0 && ToLeBytes(x)[6] == 0 && ToLeBytes(x)[7] == 0;
    } else if n == 5 {
      assert ToLeBytes(x)[5] == 0 && ToLeBytes(x)[6] == 0 && ToLeBytes(x)[7] == 0;
    } else if n == 6 {
      assert ToLeBytes(x)[6] == 0 && ToLeBytes(x)[7] == 0;
    } else {
      assert ToLeBytes(x)[7] == 0;
    }
  }

  /** Eight bytes that are zero from `n` on are their first `n` bytes padded. */
  lemma PaddedPrefix(b: seq<bv8>, n: nat)
    requires |b| == 8 && n <= 8
    requires forall i :: n <= i < 8 ==> b[i] == 0
    ensures Padded(b[..n]) == b
  {
  }

  /** Reading `n` bytes back through `to_le_bytes` reproduces them. */
  lemma LeBytesOfLeValue(s: seq<bv8>)
    requires |s| <= 8
    ensures ToLeBytes(LeValue(s))[..|s|] == s
  {
    var p := Padded(s);
    ToFromLeBytes(p);
    assert p[..|s|] == s;
  }

  /** Eight bytes need no padding: their little-endian value is `from_le_bytes`. */
  lemma LeValueOfEight(s: seq<bv8>)
    requires |s| == 8
    ensures LeValue(s) == FromLeBytes(s)
  {
    assert Padded(s) == s;
  }
}
