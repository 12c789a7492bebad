/**
 * The byte layout of a `vu64` encoding of each length: the first byte with
 * its prefix code and low payload bits, then the follow bytes in
 * little-endian order. The per-length shift amounts are spelled out, and the
 * bit-level facts are proved length by length.
 */
module Layout {
  import opened Bits
  import opened Length

  /** `n` zero bytes. */
  function Zeros(n: nat): (z: seq<bv8>)
    ensures |z| == n && forall i :: 0 <= i < n ==> z[i] == 0
  {
    seq(n, _ => 0)
  }

  /** The payload bits of the first byte of a `length`-byte encoding: `0xFF >> length`, none from 8 bytes on. */
  function PayloadMask(length: nat): bv8
    requires 1 <= length <= 9
  {
    if length == 1 then 0x7F
    else if length == 2 then 0x3F
    else if length == 3 then 0x1F
    else if length == 4 then 0x0F
    else if length == 5 then 0x07
    else if length == 6 then 0x03
    else if length == 7 then 0x01
    else 0
  }

  /**
   * The part of `v` that a `length`-byte encoding, `2 <= length <= 7`, puts
   * in its follow bytes: `v >> (8 - length)`, spelled out per length.
   */
  function HighPart(length: nat, v: bv64): bv64
    requires 2 <= length <= 7
  {
    if length == 2 then v >> 6
    else if length == 3 then v >> 5
    else if length == 4 then v >> 4
    else if length == 5 then v >> 3
    else if length == 6 then v >> 2
    else v >> 1
  }

  /**
   * The value with high part `x` and the payload bits of `first` below it:
   * `(x << (8 - length)) | (first & (0xFF >> length))`, spelled out per length.
   */
  function Join(length: nat, x: bv64, first: bv8): bv64
    requires 2 <= length <= 7
  {
    var low := (first & PayloadMask(length)) as bv64;
    if length == 2 then (x << 6) | low
    else if length == 3 then (x << 5) | low
    else if length == 4 then (x << 4) | low
    else if length == 5 then (x << 3) | low
    else if length == 6 then (x << 2) | low
    else (x << 1) | low
  }

  /**
   * The first byte of the `length`-byte encoding of `v`: the prefix code of
   * `length` above the low payload bits of `v`.
   */
  function FirstByte(length: nat, v: bv64): bv8
    requires 1 <= length <= 9
  {
    HighOnes(length - 1) | (LowByte(v) & PayloadMask(length))
  }

  /**
   * The follow bytes of the `length`-byte encoding of `v`, little-endian:
   * the high part of `v` for 2 to 7 bytes, all of `v` for 8 and 9 bytes.
   */
  function FollowBytes(length: nat, v: bv64): (f: seq<bv8>)
    requires 1 <= length <= 9
    ensures |f| == length - 1
  {
    if length == 1 then []
    else if length >= 8 then ToLeBytes(v)[..length - 1]
    else ToLeBytes(HighPart(length, v))[..length - 1]
  }

  /** The `length`-byte encoding of `v`. */
  function Pack(length: nat, v: bv64): (s: seq<bv8>)
    requires 1 <= length <= 9
    ensures |s| == length
    ensures HasPrefix(s[0], length)
    ensures s[0] & PayloadMask(length) == LowByte(v) & PayloadMask(length)
  {
    FirstByteParts(length, v);
    [FirstByte(length, v)] + FollowBytes(length, v)
  }

  /** The first byte carries the prefix code of `length` above the low payload bits of `v`. */
  lemma FirstByteParts(length: nat, v: bv64)
    requires 1 <= length <= 9
    ensures HasPrefix(FirstByte(length, v), length)
    ensures FirstByte(length, v) & PayloadMask(length) == LowByte(v) & PayloadMask(length)
  {
    if length == 1 {
    } else if length == 2 {
    } else if length == 3 {
    } else if length == 4 {
    } else if length == 5 {
    } else if length == 6 {
    } else if length == 7 {
    } else if length == 8 {
    } else {
    }
  }

  /**
   * The value that a `length`-byte encoding with `first` and `follow`
   * carries, as the decoders assemble it: `first` itself for one byte, the
   * follow bytes alone for 8 and 9 bytes, and otherwise the follow bytes
   * above the payload bits of `first`. The prefix bits of `first` are not
   * looked at.
   */
  function Unpack(length: nat, first: bv8, follow: seq<bv8>): (r: bv64)
    requires 1 <= length <= 9 && |follow| == length - 1
    ensures length <= 7 ==> LowByte(r) & PayloadMask(length) == first & PayloadMask(length)
    ensures 2 <= length <= 7 ==> HighPart(length, r) == LeValue(follow)
  {
    if length == 1 then first as bv64
    else if length >= 8 then LeValue(follow)
    else
      LeValueBound(follow);
      JoinParts(length, LeValue(follow), first);
      Join(length, LeValue(follow), first)
  }

  /**
   * Joining a high part that fits in `length - 1` bytes with a first byte
   * keeps both: the low payload bits are the first byte's, the bits above
   * them the high part.
   */
  lemma JoinParts(length: nat, x: bv64, first: bv8)
    requires 2 <= length <= 7 && x <= ByteMax(length - 1)
    ensures LowByte(Join(length, x, first)) & PayloadMask(length) == first & PayloadMask(length)
    ensures HighPart(length, Join(length, x, first)) == x
  {
    if length <= 4 {
      JoinPartsLow(length, x, first);
    } else {
      JoinPartsHigh(length, x, first);
    }
  }

  lemma JoinPartsLow(length: nat, x: bv64, first: bv8)
    requires 2 <= length <= 4 && x <= ByteMax(length - 1)
    ensures LowByte(Join(length, x, first)) & PayloadMask(length) == first & PayloadMask(length)
    ensures HighPart(length, Join(length, x, first)) == x
  {
    if length == 2 {
    } else if length == 3 {
    } else {
    }
  }

  lemma JoinPartsHigh(length: nat, x: bv64, first: bv8)
    requires 5 <= length <= 7 && x <= ByteMax(length - 1)
    ensures LowByte(Join(length, x, first)) & PayloadMask(length) == first & PayloadMask(length)
    ensures HighPart(length, Join(length, x, first)) == x
  {
    if length == 5 {
    } else if length == 6 {
    } else {
    }
  }

  /**
   * Packing a value `v` of the `length`-byte class, `2 <= length <= 7`:
   * the high part fits in the follow bytes, the first byte carries the
   * prefix code, and high part and first byte join to `v` again.
   */
  lemma PackBitsAt(length: nat, v: bv64)
    requires 2 <= length <= 7 && LengthOf(v) == length
    ensures HighPart(length, v) <= ByteMax(length - 1)
    ensures Join(length, HighPart(length, v), FirstByte(length, v)) == v
    ensures HasPrefix(FirstByte(length, v), length)
  {
    if length == 2 {
      PackBits2(length, v);
    } else if length == 3 {
      PackBits3(length, v);
    } else if length == 4 {
      PackBits4(length, v);
    } else if length == 5 {
      PackBits5(length, v);
    } else if length == 6 {
      PackBits6(length, v);
    } else {
      PackBits7(length, v);
    }
  }

  lemma PackBits2(length: nat, v: bv64)
    requires length == 2 && v <= MAX_LEN2
    ensures HighPart(length, v) <= ByteMax(length - 1)
    ensures Join(length, HighPart(length, v), FirstByte(length, v)) == v
    ensures HasPrefix(FirstByte(length, v), length)
  {
  }

  lemma PackBits3(length: nat, v: bv64)
    requires length == 3 && v <= MAX_LEN3
    ensures HighPart(length, v) <= ByteMax(length - 1)
    ensures Join(length, HighPart(length, v), FirstByte(length, v)) == v
    ensures HasPrefix(FirstByte(length, v), length)
  {
  }

  lemma PackBits4(length: nat, v: bv64)
    requires length == 4 && v <= MAX_LEN4
    ensures HighPart(length, v) <= ByteMax(length - 1)
    ensures Join(length, HighPart(length, v), FirstByte(length, v)) == v
    ensures HasPrefix(FirstByte(length, v), length)
  {
  }

  lemma PackBits5(length: nat, v: bv64)
    requires length == 5 && v <= MAX_LEN5
    ensures HighPart(length, v) <= ByteMax(length - 1)
    ensures Join(length, HighPart(length, v), FirstByte(length, v)) == v
    ensures HasPrefix(FirstByte(length, v), length)
  {
  }

  lemma PackBits6(length: nat, v: bv64)
    requires length == 6 && v <= MAX_LEN6
    ensures HighPart(length, v) <= ByteMax(length - 1)
    ensures Join(length, HighPart(length, v), FirstByte(length, v)) == v
    ensures HasPrefix(FirstByte(length, v), length)
  {
  }

  lemma PackBits7(length: nat, v: bv64)
    requires length == 7 && v <= MAX_LEN7
    ensures HighPart(length, v) <= ByteMax(length - 1)
    ensures Join(length, HighPart(length, v), FirstByte(length, v)) == v
    ensures HasPrefix(FirstByte(length, v), length)
  {
  }

  /**
   * Unpacking, `2 <= length <= 7`, follow bytes of value `x` (which fits in
   * `length - 1` bytes) below a first byte with the prefix code of `length`:
   * the value lies in a class of at most `length` bytes, and its high part
   * and first byte are `x` and `first` again.
   */
  lemma UnpackBitsAt(length: nat, x: bv64, first: bv8)
    requires 2 <= length <= 7 && x <= ByteMax(length - 1) && HasPrefix(first, length)
    ensures LengthOf(Join(length, x, first)) <= length
    ensures HighPart(length, Join(length, x, first)) == x
    ensures FirstByte(length, Join(length, x, first)) == first
  {
    if length == 2 {
      UnpackBits2(length, x, first);
    } else if length == 3 {
      UnpackBits3(length, x, first);
    } else if length == 4 {
      UnpackBits4(length, x, first);
    } else if length == 5 {
      UnpackBits5(length, x, first);
    } else if length == 6 {
      UnpackBits6(length, x, first);
    } else {
      UnpackBits7(length, x, first);
    }
  }

  lemma UnpackBits2(length: nat, x: bv64, first: bv8)
    requires length == 2 && x <= ByteMax(1) && HasPrefix(first, 2)
    ensures LengthOf(Join(length, x, first)) <= length
    ensures HighPart(length, Join(length, x, first)) == x
    ensures FirstByte(length, Join(length, x, first)) == first
  {
  }

  lemma UnpackBits3(length: nat, x: bv64, first: bv8)
    requires length == 3 && x <= ByteMax(2) && HasPrefix(first, 3)
    ensures LengthOf(Join(length, x, first)) <= length
    ensures HighPart(length, Join(length, x, first)) == x
    ensures FirstByte(length, Join(length, x, first)) == first
  {
  }

  lemma UnpackBits4(length: nat, x: bv64, first: bv8)
    requires length == 4 && x <= ByteMax(3) && HasPrefix(first, 4)
    ensures LengthOf(Join(length, x, first)) <= length
    ensures HighPart(length, Join(length, x, first)) == x
    ensures FirstByte(length, Join(length, x, first)) == first
  {
  }

  lemma UnpackBits5(length: nat, x: bv64, first: bv8)
    requires length == 5 && x <= ByteMax(4) && HasPrefix(first, 5)
    ensures LengthOf(Join(length, x, first)) <= length
    ensures HighPart(length, Join(length, x, first)) == x
    ensures FirstByte(length, Join(length, x, first)) == first
  {
  }

  lemma UnpackBits6(length: nat, x: bv64, first: bv8)
    requires length == 6 && x <= ByteMax(5) && HasPrefix(first, 6)
    ensures LengthOf(Join(length, x, first)) <= length
    ensures HighPart(length, Join(length, x, first)) == x
    ensures FirstByte(length, Join(length, x, first)) == first
  {
  }

  lemma UnpackBits7(length: nat, x: bv64, first: bv8)
    requires length == 7 && x <= ByteMax(6) && HasPrefix(first, 7)
    ensures LengthOf(Join(length, x, first)) <= length
    ensures HighPart(length, Join(length, x, first)) == x
    ensures FirstByte(length, Join(length, x, first)) == first
  {
  }

  /**
   * The source's way of laying out a value `v` of the `length`-byte class,
   * `2 <= length <= 7`: `v << length` in little-endian order holds the follow
   * bytes at 1 to `length - 1` and zeros above, and its byte 0 turns into the
   * first byte by `!((!(b >> 1)) >> (length - 1))`.
   */
  lemma EncodeBitsAt(length: nat, v: bv64)
    requires 2 <= length <= 7 && LengthOf(v) == length
    ensures ToLeBytes(v << (length as bv64))[1..length] == FollowBytes(length, v)
    ensures ToLeBytes(v << (length as bv64))[length..] == Zeros(8 - length)
    ensures !((!(ToLeBytes(v << (length as bv64))[0] >> 1)) >> (length - 1)) == FirstByte(length, v)
  {
    if length == 2 {
      EncodeBits2(length, v);
    } else if length == 3 {
      EncodeBits3(length, v);
    } else if length == 4 {
      EncodeBits4(length, v);
    } else if length == 5 {
      EncodeBits5(length, v);
    } else if length == 6 {
      EncodeBits6(length, v);
    } else {
      EncodeBits7(length, v);
    }
  }

  lemma EncodeBits2(length: nat, v: bv64)
    requires length == 2 && v <= MAX_LEN2
    ensures ToLeBytes(v << (length as bv64))[1..length] == FollowBytes(length, v)
    ensures ToLeBytes(v << (length as bv64))[length..] == Zeros(8 - length)
    ensures !((!(ToLeBytes(v << (length as bv64))[0] >> 1)) >> (length - 1)) == FirstByte(length, v)
  {
  }

  lemma EncodeBits3(length: nat, v: bv64)
    requires length == 3 && v <= MAX_LEN3
    ensures ToLeBytes(v << (length as bv64))[1..length] == FollowBytes(length, v)
    ensures ToLeBytes(v << (length as bv64))[length..] == Zeros(8 - length)
    ensures !((!(ToLeBytes(v << (length as bv64))[0] >> 1)) >> (length - 1)) == FirstByte(length, v)
  {
  }

  lemma EncodeBits4(length: nat, v: bv64)
    requires length == 4 && v <= MAX_LEN4
    ensures ToLeBytes(v << (length as bv64))[1..length] == FollowBytes(length, v)
    ensures ToLeBytes(v << (length as bv64))[length..] == Zeros(8 - length)
    ensures !((!(ToLeBytes(v << (length as bv64))[0] >> 1)) >> (length - 1)) == FirstByte(length, v)
  {
  }

  lemma EncodeBits5(length: nat, v: bv64)
    requires length == 5 && v <= MAX_LEN5
    ensures ToLeBytes(v << (length as bv64))[1..length] == FollowBytes(length, v)
    ensures ToLeBytes(v << (length as bv64))[length..] == Zeros(8 - length)
    ensures !((!(ToLeBytes(v << (length as bv64))[0] >> 1)) >> (length - 1)) == FirstByte(length, v)
  {
  }

  lemma EncodeBits6(length: nat, v: bv64)
    requires length == 6 && v <= MAX_LEN6
    ensures ToLeBytes(v << (length as bv64))[1..length] == FollowBytes(length, v)
    ensures ToLeBytes(v << (length as bv64))[length..] == Zeros(8 - length)
    ensures !((!(ToLeBytes(v << (length as bv64))[0] >> 1)) >> (length - 1)) == FirstByte(length, v)
  {
  }

  lemma EncodeBits7(length: nat, v: bv64)
    requires length == 7 && v <= MAX_LEN7
    ensures ToLeBytes(v << (length as bv64))[1..length] == FollowBytes(length, v)
    ensures ToLeBytes(v << (length as bv64))[length..] == Zeros(8 - length)
    ensures !((!(ToLeBytes(v << (length as bv64))[0] >> 1)) >> (length - 1)) == FirstByte(length, v)
  {
  }

  /**
   * The source's way of assembling a `length`-byte value, `2 <= length <= 7`,
   * from the follow value `x` and the first byte: shift the payload bits of
   * `first` to the top of a byte, put `x` above them, and shift back down.
   */
  lemma DecodeBitsAt(length: nat, x: bv64, first: bv8)
    requires 2 <= length <= 7 && x <= ByteMax(length - 1)
    ensures ((x << 8) | ((first << length) as bv64)) >> length == Join(length, x, first)
  {
    if length == 2 {
      DecodeBits2(length, x, first);
    } else if length == 3 {
      DecodeBits3(length, x, first);
    } else if length == 4 {
      DecodeBits4(length, x, first);
    } else if length == 5 {
      DecodeBits5(length, x, first);
    } else if length == 6 {
      DecodeBits6(length, x, first);
    } else {
      DecodeBits7(length, x, first);
    }
  }

  lemma DecodeBits2(length: nat, x: bv64, first: bv8)
    requires length == 2 && x <= ByteMax(1)
    ensures ((x << 8) | ((first << length) as bv64)) >> length == Join(length, x, first)
  {
  }

  lemma DecodeBits3(length: nat, x: bv64, first: bv8)
    requires length == 3 && x <= ByteMax(2)
    ensures ((x << 8) | ((first << length) as bv64)) >> length == Join(length, x, first)
  {
  }

  lemma DecodeBits4(length: nat, x: bv64, first: bv8)
    requires length == 4 && x <= ByteMax(3)
    ensures ((x << 8) | ((first << length) as bv64)) >> length == Join(length, x, first)
  {
  }

  lemma DecodeBits5(length: nat, x: bv64, first: bv8)
    requires length == 5 && x <= ByteMax(4)
    ensures ((x << 8) | ((first << length) as bv64)) >> length == Join(length, x, first)
  {
  }

  lemma DecodeBits6(length: nat, x: bv64, first: bv8)
    requires length == 6 && x <= ByteMax(5)
    ensures ((x << 8) | ((first << length) as bv64)) >> length == Join(length, x, first)
  {
  }

  lemma DecodeBits7(length: nat, x: bv64, first: bv8)
    requires length == 7 && x <= ByteMax(6)
    ensures ((x << 8) | ((first << length) as bv64)) >> length == Join(length, x, first)
  {
  }

  /** The encoding of any length is read back as the value it was made from. */
  lemma PackUnpacks(length: nat, v: bv64)
    requires 1 <= length <= 9 && LengthOf(v) == length
    ensures HasPrefix(FirstByte(length, v), length)
    ensures Unpack(length, FirstByte(length, v), FollowBytes(length, v)) == v
  {
    if length == 1 {
      PackUnpacks1(v);
    } else if length == 8 {
      PackUnpacks8(v);
    } else if length == 9 {
      PackUnpacks9(v);
    } else {
      PackUnpacksMiddle(length, v);
    }
  }

  lemma PackUnpacks1(v: bv64)
    requires LengthOf(v) == 1
    ensures HasPrefix(FirstByte(1, v), 1)
    ensures Unpack(1, FirstByte(1, v), FollowBytes(1, v)) == v
  {
  }

  lemma PackUnpacksMiddle(length: nat, v: bv64)
    requires 2 <= length <= 7 && LengthOf(v) == length
    ensures HasPrefix(FirstByte(length, v), length)
    ensures Unpack(length, FirstByte(length, v), FollowBytes(length, v)) == v
  {
    PackBitsAt(length, v);
    FollowValue(length, v);
  }

  /** The follow bytes of a `length`-byte encoding, `2 <= length <= 7`, hold the high part. */
  lemma FollowValue(length: nat, v: bv64)
    requires 2 <= length <= 7 && HighPart(length, v) <= ByteMax(length - 1)
    ensures LeValue(FollowBytes(length, v)) == HighPart(length, v)
  {
    FollowBytesMiddle(length, v);
    LeValueOfPrefix(HighPart(length, v), length - 1, FollowBytes(length, v));
  }

  lemma LeValueOfPrefix(x: bv64, n: nat, s: seq<bv8>)
    requires n <= 8 && x <= ByteMax(n) && s == ToLeBytes(x)[..n]
    ensures LeValue(s) == x
  {
    LeValueOfLeBytes(x, n);
  }

  lemma FollowBytesMiddle(length: nat, v: bv64)
    requires 2 <= length <= 7
    ensures FollowBytes(length, v) == ToLeBytes(HighPart(length, v))[..length - 1]
  {
  }

  lemma PackUnpacks8(v: bv64)
    requires LengthOf(v) == 8
    ensures HasPrefix(FirstByte(8, v), 8)
    ensures Unpack(8, FirstByte(8, v), FollowBytes(8, v)) == v
  {
    LeValueOfLeBytes(v, 7);
  }

  lemma PackUnpacks9(v: bv64)
    ensures HasPrefix(FirstByte(9, v), 9)
    ensures Unpack(9, FirstByte(9, v), FollowBytes(9, v)) == v
  {
    LeValueOfLeBytes(v, 8);
  }

  /**
   * Bytes with the prefix code of `length` are read as a value of a class of
   * at most `length` bytes, whose `length`-byte layout is those bytes again.
   */
  lemma UnpackPacks(length: nat, first: bv8, follow: seq<bv8>)
    requires 1 <= length <= 9 && |follow| == length - 1 && HasPrefix(first, length)
    ensures LengthOf(Unpack(length, first, follow)) <= length
    ensures Pack(length, Unpack(length, first, follow)) == [first] + follow
  {
    if length == 1 {
      UnpackPacks1(first, follow);
    } else if length == 8 {
      UnpackPacks8(first, follow);
    } else if length == 9 {
      UnpackPacks9(first, follow);
    } else {
      UnpackPacksMiddle(length, first, follow);
    }
  }

  lemma UnpackPacks1(first: bv8, follow: seq<bv8>)
    requires |follow| == 0 && HasPrefix(first, 1)
    ensures LengthOf(Unpack(1, first, follow)) <= 1
    ensures Pack(1, Unpack(1, first, follow)) == [first] + follow
  {
  }

  lemma UnpackPacksMiddle(length: nat, first: bv8, follow: seq<bv8>)
    requires 2 <= length <= 7 && |follow| == length - 1 && HasPrefix(first, length)
    ensures LengthOf(Unpack(length, first, follow)) <= length
    ensures Pack(length, Unpack(length, first, follow)) == [first] + follow
  {
    LeValueBound(follow);
    UnpackBitsAt(length, LeValue(follow), first);
    LeBytesOfLeValue(follow);
  }

  lemma UnpackPacks8(first: bv8, follow: seq<bv8>)
    requires |follow| == 7 && HasPrefix(first, 8)
    ensures LengthOf(Unpack(8, first, follow)) <= 8
    ensures Pack(8, Unpack(8, first, follow)) == [first] + follow
  {
    LeValueBound(follow);
    LeBytesOfLeValue(follow);
  }

  lemma UnpackPacks9(first: bv8, follow: seq<bv8>)
    requires |follow| == 8 && HasPrefix(first, 9)
    ensures LengthOf(Unpack(9, first, follow)) <= 9
    ensures Pack(9, Unpack(9, first, follow)) == [first] + follow
  {
    LeBytesOfLeValue(follow);
  }
}
