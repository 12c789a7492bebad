/**
 * The public operations of `vu64`: the `Vu64` value with its encoded bytes,
 * `encode`, the three decoders and the conversions between `Vu64`, `u64`
 * and byte slices. The operations that work step by step in the source
 * (filling a byte buffer, accumulating follow bytes in a loop) are methods
 * proved against the functions of `Format`.
 */
module Codec {
  import opened Bits
  import opened Length
  import opened Layout
  import opened Format

  /** `Vu64`: the encoded length and a `MAX_BYTES` buffer whose first `length` bytes are the encoding. */
  datatype Vu64 = Vu64(length: nat, bytes: seq<bv8>)
  {
    /** The invariant of every `Vu64` the crate builds: a length in 1..9 and a 9-byte buffer. */
    ghost predicate Valid()
    {
      1 <= length <= MAX_BYTES && |bytes| == MAX_BYTES
    }

    /** `as_ref`: the encoded bytes. */
    function AsRef(): (s: seq<bv8>)
      requires Valid()
      ensures |s| == length
    {
      bytes[..length]
    }
  }

  /** The `Vu64` holding the encoding of `value`, zeros after it. */
  function Encoding(value: bv64): (r: Vu64)
    ensures r.Valid()
  {
    Vu64(LengthOf(value), Encoded(value) + Zeros(MAX_BYTES - LengthOf(value)))
  }

  /**
   * The bytes of `encode(value)` are the canonical encoding, which decodes
   * back to `value`, and the buffer is zero after them.
   */
  lemma EncodingRoundTrip(value: bv64)
    ensures Encoding(value).AsRef() == Encoded(value)
    ensures Decoding(Encoding(value).AsRef()) == Ok(value)
    ensures forall i :: Encoding(value).length <= i < MAX_BYTES ==> Encoding(value).bytes[i] == 0
  {
    PrefixOfAppend(Encoded(value), Zeros(MAX_BYTES - LengthOf(value)));
    DecodingOfEncoded(value, []);
    assert Encoded(value) + [] == Encoded(value);
  }

  lemma PrefixOfAppend<T>(a: seq<T>, b: seq<T>)
    ensures (a + b)[..|a|] == a
  {
  }

  /**
   * `encode` (and `Vu64::from(u64)`): fills a zeroed 9-byte buffer. A
   * one-byte value is stored as its low byte; values of 2 to 7 bytes are
   * shifted left by the length, stored little-endian, and the first byte's
   * low bits are then replaced by the length prefix; values of 8 and 9 bytes
   * are stored little-endian after a `0xFE` or `0xFF` prefix byte.
   */
  method Encode(value: bv64) returns (r: Vu64)
    ensures r == Encoding(value)
  {
    var bytes := new bv8[MAX_BYTES](_ => 0);
    var length := EncodedLen(value);
    Store(bytes, value, length);
    EncodingParts(value, length);
    r := Vu64(length, bytes[..]);
  }

  /** The body of `encode` between sizing and returning: fills the zeroed buffer by length class. */
  method Store(bytes: array<bv8>, value: bv64, length: nat)
    requires bytes.Length == MAX_BYTES && forall i :: 0 <= i < MAX_BYTES ==> bytes[i] == 0
    requires length == LengthOf(value)
    modifies bytes
    ensures bytes[..] == [FirstByte(length, value)] + FollowBytes(length, value) + Zeros(MAX_BYTES - length)
  {
    assert bytes[..] == Zeros(MAX_BYTES);
    var followLen := length - 1;
    if followLen == 0 {
      // 1-byte special case
      bytes[0] := LowByte(value);
      assert bytes[..] == Zeros(MAX_BYTES)[0 := LowByte(value)];
      OneByte(value);
    } else if followLen < 7 {
      StoreShifted(bytes, value, length);
      ShiftedBuffer(length, value);
    } else {
      StoreLong(bytes, value, length);
    }
  }

  /**
   * The 2- to 7-byte case of `encode`: `value << length` is stored
   * little-endian in the first 8 bytes, and the first byte's `length` low
   * bits, which the shift left zero, become the prefix code
   * (`!((!(b >> 1)) >> (length - 1))` sets the top `length - 1` bits and
   * clears the next one).
   */
  method StoreShifted(bytes: array<bv8>, value: bv64, length: nat)
    requires bytes.Length == MAX_BYTES && bytes[8] == 0
    requires 2 <= length <= 7
    modifies bytes
    ensures var le := ToLeBytes(value << (length as bv64));
      bytes[..] == [!((!(le[0] >> 1)) >> (length - 1))] + le[1..] + [0]
  {
    var followLen := length - 1;
    var encoded := value << (length as bv64);
    var le := ToLeBytes(encoded);
    CopyFromSlice(bytes, 0, le);
    var b1st := bytes[0];
    bytes[0] := !((!(b1st >> 1)) >> followLen);
    FirstReplaced(bytes[..], le, bytes[0], 0);
  }

  /** What `StoreShifted` leaves in the buffer is the encoding of a value of `length` bytes, zero-padded. */
  lemma ShiftedBuffer(length: nat, value: bv64)
    requires 2 <= length <= 7 && LengthOf(value) == length
    ensures var le := ToLeBytes(value << (length as bv64));
      [!((!(le[0] >> 1)) >> (length - 1))] + le[1..] + [0]
      == [FirstByte(length, value)] + FollowBytes(length, value) + Zeros(9 - length)
  {
    EncodeBitsAt(length, value);
    ZerosSnoc(8 - length);
    var le := ToLeBytes(value << (length as bv64));
    ShiftedParts(le, FirstByte(length, value), length, FollowBytes(length, value), Zeros(8 - length), Zeros(9 - length), 0);
  }

  lemma ShiftedParts<T>(le: seq<T>, first: T, n: nat, follow: seq<T>, zeros: seq<T>, tail: seq<T>, z: T)
    requires |le| == 8 && 1 <= n <= 8
    requires le[1..n] == follow && le[n..] == zeros
    requires |tail| == |zeros| + 1 && tail[..|zeros|] == zeros && tail[|zeros|] == z
    ensures [first] + le[1..] + [z] == [first] + follow + tail
  {
  }

  lemma FirstReplaced<T>(s: seq<T>, le: seq<T>, x: T, z: T)
    requires |s| == 9 && |le| == 8
    requires s[0] == x && (forall i :: 1 <= i < 8 ==> s[i] == le[i]) && s[8] == z
    ensures s == [x] + le[1..] + [z]
  {
  }

  /** The 8- and 9-byte cases of `encode`: a `0xFE` or `0xFF` prefix byte, then `value` little-endian. */
  method StoreLong(bytes: array<bv8>, value: bv64, length: nat)
    requires bytes.Length == MAX_BYTES
    requires 8 <= length <= 9 && LengthOf(value) == length
    modifies bytes
    ensures bytes[..] == [FirstByte(length, value)] + FollowBytes(length, value) + Zeros(9 - length)
  {
    var followLen := length - 1;
    var le := ToLeBytes(value);
    CopyFromSlice(bytes, 1, le);
    ghost var copied := bytes[..];
    if followLen == 7 {
      // 8-byte special case
      bytes[0] := 0xFE;
    } else {
      // 9-byte special case
      bytes[0] := 0xFF;
    }
    assert bytes[..] == copied[0 := bytes[0]];
    ReplaceHead(copied, bytes[0], le);
    LongFirst(length, value);
    LongBuffer(length, value);
  }

  lemma ReplaceHead<T>(s: seq<T>, x: T, tail: seq<T>)
    requires |s| == |tail| + 1 && s[1..] == tail
    ensures s[0 := x] == [x] + tail
  {
  }

  /** The follow bytes and padding of the 8- and 9-byte encodings are `value` little-endian. */
  lemma LongBuffer(length: nat, value: bv64)
    requires 8 <= length <= 9 && LengthOf(value) == length
    ensures [FirstByte(length, value)] + FollowBytes(length, value) + Zeros(9 - length)
      == [FirstByte(length, value)] + ToLeBytes(value)
  {
    var le := ToLeBytes(value);
    assert FollowBytes(length, value) == le[..length - 1];
    if length == 8 {
      LeBytesZerosAbove(value, 7);
      assert le[7..] == Zeros(1);
    } else {
      assert le[8..] == Zeros(0);
    }
    SplitAt(le, length - 1);
  }

  /** `a[start..start + |src|].copy_from_slice(src)`: the other elements keep their values. */
  method CopyFromSlice<T>(a: array<T>, start: nat, src: seq<T>)
    requires start + |src| <= a.Length
    modifies a
    ensures a[..] == old(a[..start]) + src + old(a[start + |src|..])
  {
    forall i | 0 <= i < |src| {
      a[start + i] := src[i];
    }
    assert a[..] == old(a[..start]) + src + old(a[start + |src|..]);
  }

  lemma LongFirst(length: nat, value: bv64)
    requires 8 <= length <= 9
    ensures FirstByte(length, value) == if length == 8 then 0xFE else 0xFF
  {
  }

  lemma OneByteFirst(value: bv64)
    requires LengthOf(value) == 1
    ensures FirstByte(1, value) == LowByte(value)
  {
  }

  /** A zeroed buffer holding the low byte of a 1-byte value holds its encoding. */
  lemma OneByte(value: bv64)
    requires LengthOf(value) == 1
    ensures Zeros(MAX_BYTES)[0 := LowByte(value)] == [FirstByte(1, value)] + FollowBytes(1, value) + Zeros(8)
  {
    OneByteFirst(value);
    BufferOf(Zeros(MAX_BYTES)[0 := LowByte(value)], Zeros(8), FirstByte(1, value), 1, FollowBytes(1, value), Zeros(8));
  }

  lemma EncodingParts(value: bv64, length: nat)
    requires length == LengthOf(value)
    ensures Encoding(value) == Vu64(length, [FirstByte(length, value)] + FollowBytes(length, value) + Zeros(MAX_BYTES - length))
  {
  }

  /** A buffer holding `first` and then `le`, whose bytes from `n - 1` on are `zeros`. */
  lemma BufferOf<T>(s: seq<T>, le: seq<T>, first: T, n: nat, follow: seq<T>, zeros: seq<T>)
    requires |s| == 9 && |le| == 8 && 1 <= n <= 9
    requires s[0] == first && forall i :: 1 <= i < 9 ==> s[i] == le[i - 1]
    requires le[..n - 1] == follow && le[n - 1..] == zeros
    ensures s == [first] + follow + zeros
  {
  }

  lemma ZerosSnoc(n: nat)
    ensures var z := Zeros(n + 1); z[..n] == Zeros(n) && z[n] == 0
  {
  }

  /**
   * `decode_with_length` with the canonicality check performed: the first
   * `length` bytes of `bytes` are read, and the value is refused as
   * redundant where the source only `debug_assert!`s it.
   */
  method DecodeWithLength(length: nat, bytes: seq<bv8>) returns (r: Result<bv64>)
    requires 1 <= length <= 9
    ensures r == DecodingWithLength(length, bytes)
  {
    if |bytes| < length {
      return Err(Truncated);
    }
    var followLen := length - 1;
    ghost var follow := bytes[1..length];
    var result: bv64;
    if followLen == 0 {
      // 1-byte special case
      result := bytes[0] as bv64;
      assert result == Unpack(length, bytes[0], follow);
    } else if followLen < 7 {
      var val := ReadFollow(bytes, 1, length);
      FollowBound(length, follow);
      result := ShiftIn(length, bytes[0], val);
      UnpackMiddle(length, bytes[0], follow);
      assert result == Unpack(length, bytes[0], follow);
    } else if followLen == 7 {
      // 8-byte special case
      result := ReadFollow(bytes, 1, length);
      assert result == Unpack(length, bytes[0], follow);
    } else {
      // 9-byte special case
      result := FromLeBytes(bytes[1..9]);
      LeValueOfEight(bytes[1..9]);
      assert result == Unpack(length, bytes[0], follow);
    }
    r := CheckCanonical(length, result);
  }

  /**
   * `decode_with_first_and_follow`: as `DecodeWithLength`, with the first
   * byte apart from the follow bytes.
   */
  method DecodeWithFirstAndFollow(length: nat, first: bv8, follow: seq<bv8>) returns (r: Result<bv64>)
    requires 1 <= length <= 9
    ensures r == DecodingWithLength(length, [first] + follow)
  {
    if |follow| < length - 1 {
      return Err(Truncated);
    }
    var result := Assemble(length, first, follow);
    DecodingOfFirstAndFollow(length, first, follow);
    r := CheckCanonical(length, result);
  }

  /** The value assembly of `decode_with_first_and_follow`, by length class. */
  method Assemble(length: nat, first: bv8, follow: seq<bv8>) returns (result: bv64)
    requires 1 <= length <= 9 && length - 1 <= |follow|
    ensures result == Unpack(length, first, follow[0..length - 1])
  {
    var followLen := length - 1;
    if followLen == 0 {
      // 1-byte special case
      result := first as bv64;
    } else if followLen < 7 {
      result := AssembleMiddle(length, first, follow);
    } else if followLen == 7 {
      // 8-byte special case
      result := ReadFollow(follow, 0, followLen);
    } else {
      // 9-byte special case
      result := FromLeBytes(follow[0..8]);
      LeValueOfEight(follow[0..8]);
    }
  }

  method AssembleMiddle(length: nat, first: bv8, follow: seq<bv8>) returns (result: bv64)
    requires 2 <= length <= 7 && length - 1 <= |follow|
    ensures result == Unpack(length, first, follow[0..length - 1])
  {
    ghost var read := follow[0..length - 1];
    var val := ReadFollow(follow, 0, length - 1);
    FollowBound(length, read);
    result := ShiftIn(length, first, val);
    UnpackMiddle(length, first, read);
    assert result == Unpack(length, first, read);
  }

  /** Decoding a first byte and its follow bytes given apart. */
  lemma DecodingOfFirstAndFollow(length: nat, first: bv8, follow: seq<bv8>)
    requires 1 <= length <= |follow| + 1 && length <= 9
    ensures DecodingWithLength(length, [first] + follow) == RejectRedundant(length, Unpack(length, first, follow[0..length - 1]))
  {
    FirstAndFollow(first, follow, length);
  }

  lemma FirstAndFollow<T>(first: T, follow: seq<T>, length: nat)
    requires 1 <= length <= |follow| + 1
    ensures ([first] + follow)[0] == first && ([first] + follow)[1..length] == follow[0..length - 1]
  {
  }

  /** `decode`: the first byte announces the length. */
  method Decode(bytes: seq<bv8>) returns (r: Result<bv64>)
    ensures r == Decoding(bytes)
  {
    if |bytes| == 0 {
      return Err(Truncated);
    }
    var length := DecodedLen(bytes[0]);
    r := DecodeWithLength(length, bytes);
  }

  /** `decode2`: the first byte and the follow bytes given apart decode as their concatenation. */
  method Decode2(first: bv8, follow: seq<bv8>) returns (r: Result<bv64>)
    ensures r == Decoding([first] + follow)
  {
    var length := DecodedLen(first);
    r := DecodeWithFirstAndFollow(length, first, follow);
  }

  /**
   * `decode_with_first_and_follow_le`: the follow bytes arrive as one
   * little-endian word, which is used whole, so that the caller must leave
   * its bytes from `length - 1` on zero. A little-endian target is assumed,
   * on which `u64::from_le` changes nothing.
   */
  function DecodeWithFirstAndFollowLe(length: nat, first: bv8, word: bv64): (r: Result<bv64>)
    requires 1 <= length <= 9
    ensures r.Err? ==> r.error == RedundantEncode
    ensures r.Ok? ==> LengthOf(r.value) >= length
  {
    RejectRedundant(length, WordResult(length, first, word))
  }

  /** The value `decode_with_first_and_follow_le` reads, before the check. */
  function WordResult(length: nat, first: bv8, word: bv64): bv64
    requires 1 <= length <= 9
  {
    if length == 1 then first as bv64
    else if length <= 7 then ((word << 8) | ((first << length) as bv64)) >> length
    else word
  }

  /**
   * `decode3`: it has no slice to run short of, so its only error is a
   * redundant encoding, and a value it accepts is of at least the length
   * class that `first` announces.
   */
  function Decode3(first: bv8, word: bv64): (r: Result<bv64>)
    ensures r.Err? ==> r.error == RedundantEncode
    ensures r.Ok? ==> LengthOf(r.value) >= DecodedLen(first)
  {
    DecodeWithFirstAndFollowLe(DecodedLen(first), first, word)
  }

  /**
   * Given the follow bytes zero-padded to a word, `decode3` decodes as
   * `decode` does on the bytes themselves.
   */
  lemma Decode3Agrees(first: bv8, follow: seq<bv8>)
    requires |follow| == DecodedLen(first) - 1
    ensures Decode3(first, LeValue(follow)) == Decoding([first] + follow)
  {
    var length := DecodedLen(first);
    DecodingOfFirstAndFollow(length, first, follow);
    TakeAll(follow);
    DecodeLeAgrees(length, first, follow);
  }

  lemma DecodeLeAgrees(length: nat, first: bv8, follow: seq<bv8>)
    requires 1 <= length <= 9 && |follow| == length - 1
    ensures DecodeWithFirstAndFollowLe(length, first, LeValue(follow)) == RejectRedundant(length, Unpack(length, first, follow))
  {
    if 2 <= length <= 7 {
      WordResultMiddle(length, first, follow);
    }
  }

  lemma WordResultMiddle(length: nat, first: bv8, follow: seq<bv8>)
    requires 2 <= length <= 7 && |follow| == length - 1
    ensures WordResult(length, first, LeValue(follow)) == Unpack(length, first, follow)
  {
    FollowBound(length, follow);
    WordResultJoin(length, first, LeValue(follow));
    UnpackMiddle(length, first, follow);
  }

  lemma WordResultJoin(length: nat, first: bv8, x: bv64)
    requires 2 <= length <= 7 && x <= ByteMax(length - 1)
    ensures WordResult(length, first, x) == Join(length, x, first)
  {
    DecodeBitsAt(length, x, first);
  }

  lemma TakeAll<T>(s: seq<T>)
    ensures s[0..|s|] == s
  {
  }

  /**
   * The 2- to 7-byte step shared by the decoders: the follow bytes' value
   * `val` is shifted up by a byte, the first byte shifted left by `length`
   * (dropping its prefix code) fills the low byte, and shifting the whole
   * right by `length` leaves the payload bits in place.
   */
  method ShiftIn(length: nat, first: bv8, val: bv64) returns (result: bv64)
    requires 2 <= length <= 7 && val <= ByteMax(length - 1)
    ensures result == Join(length, val, first)
  {
    var lsb := first << length;
    result := ((val << 8) | (lsb as bv64)) >> length;
    DecodeBitsAt(length, val, first);
  }

  /**
   * The accumulation loop of the decoders: bytes `hi - 1` down to `lo` are
   * shifted in one by one with `val = val << 8 | b`, which reads
   * `s[lo..hi]` as a little-endian number.
   */
  method ReadFollow(s: seq<bv8>, lo: nat, hi: nat) returns (val: bv64)
    requires lo <= hi <= |s| && hi - lo <= 8
    ensures val == LeValue(s[lo..hi])
  {
    val := 0;
    var i := hi;
    while i > lo
      invariant lo <= i <= hi
      invariant val == LeValue(s[i..hi])
    {
      i := i - 1;
      var b := s[i];
      LeValueStep(s, i, hi);
      val := (val << 8) | (b as bv64);
    }
  }

  /**
   * The final step of the decoders: the check of `check_result_with_length`,
   * whose failure is reported as `RedundantEncode`.
   */
  method CheckCanonical(length: nat, result: bv64) returns (r: Result<bv64>)
    requires 1 <= length <= 9
    ensures r == RejectRedundant(length, result)
  {
    if CheckResultWithLength(length, result).Err? {
      return Err(RedundantEncode);
    }
    return Ok(result);
  }

  /** For 2 to 7 bytes, `Unpack` joins the follow bytes' value with the first byte's payload. */
  lemma UnpackMiddle(length: nat, first: bv8, follow: seq<bv8>)
    requires 2 <= length <= 7 && |follow| == length - 1
    ensures Unpack(length, first, follow) == Join(length, LeValue(follow), first)
  {
  }

  lemma FollowBound(length: nat, follow: seq<bv8>)
    requires 1 <= length <= 9 && |follow| == length - 1
    ensures LeValue(follow) <= ByteMax(length - 1)
  {
    LeValueBound(follow);
  }

  /** One step of the accumulation loops: prepending byte `i` to the bytes after it. */
  lemma LeValueStep(s: seq<bv8>, i: nat, n: nat)
    requires i < n <= |s| && n - i <= 8
    ensures LeValue(s[i..n]) == (LeValue(s[i + 1..n]) << 8) | (s[i] as bv64)
  {
    LeValueCons(s[i], s[i + 1..n]);
    SliceCons(s, i, n);
  }

  lemma SliceCons<T>(s: seq<T>, i: nat, n: nat)
    requires i < n <= |s|
    ensures s[i..n] == [s[i]] + s[i + 1..n]
  {
  }

  /**
   * `Vu64::try_from(&[u8])`: decodes the slice and re-encodes the value. It
   * succeeds exactly when `decode` does, and then holds the bytes the slice
   * starts with.
   */
  method TryFrom(slice: seq<bv8>) returns (r: Result<Vu64>)
    ensures r.Ok? <==> Decoding(slice).Ok?
    ensures r.Ok? ==> r.value == Encoding(Decoding(slice).value) && r.value.Valid()
    ensures r.Err? ==> r.error == Decoding(slice).error
  {
    var d := Decode(slice);
    match d
    case Ok(v) =>
      var e := Encode(v);
      r := Ok(e);
    case Err(err) =>
      r := Err(err);
  }

  /** What `try_from` returns holds exactly the bytes the slice starts with. */
  lemma TryFromPrefix(slice: seq<bv8>)
    requires Decoding(slice).Ok?
    ensures var e := Encoding(Decoding(slice).value);
      e.length <= |slice| && e.AsRef() == slice[..e.length]
  {
    var v := Decoding(slice).value;
    DecodedIsEncoded(slice, v);
    EncodingRoundTrip(v);
  }

  /** Two `Vu64` values are equal exactly when the numbers they encode are. */
  lemma EncodingInjective(a: bv64, b: bv64)
    ensures Encoding(a) == Encoding(b) <==> a == b
  {
    if Encoding(a) == Encoding(b) {
      EncodingRoundTrip(a);
      EncodingRoundTrip(b);
    }
  }

  /** The whole 9-byte buffer of an encoding decodes too: the zeros after the encoding are not read. */
  lemma DecodingOfBuffer(value: bv64)
    ensures Decoding(Encoding(value).bytes) == Ok(value)
  {
    var e := Encoding(value);
    EncodingRoundTrip(value);
    EncodedAnnouncesLength(value);
    SplitAt(e.bytes, e.length);
    DecodingIgnoresRest(e.AsRef(), e.bytes[e.length..]);
  }

  /**
   * `decode3` of an encoding's first byte and its remaining 8 bytes read as
   * one little-endian word gives the value back.
   */
  lemma Decode3OfBuffer(value: bv64)
    ensures var e := Encoding(value); Decode3(e.bytes[0], FromLeBytes(e.bytes[1..])) == Ok(value)
  {
    var e := Encoding(value);
    var length := e.length;
    var follow := e.bytes[1..length];
    EncodingRoundTrip(value);
    EncodedAnnouncesLength(value);
    PaddedFollow(e.bytes, length);
    Decode3Agrees(e.bytes[0], follow);
    PrefixParts(e.bytes, length);
  }

  /** A buffer that is zero from `length` on: its follow bytes padded are all of its bytes after the first. */
  lemma PaddedFollow(bytes: seq<bv8>, length: nat)
    requires |bytes| == MAX_BYTES && 1 <= length <= MAX_BYTES
    requires forall i :: length <= i < MAX_BYTES ==> bytes[i] == 0
    ensures LeValue(bytes[1..length]) == FromLeBytes(bytes[1..])
  {
    assert Padded(bytes[1..length]) == bytes[1..];
  }
}
