/**
 * The byte format of `vu64` as values: how a value of a given length class
 * is laid out (first byte with its prefix code and low payload bits, then
 * the follow bytes in little-endian order), how such bytes are read back,
 * and the outcome a decoder must produce for any byte string.
 */
module Format {
  import opened Bits
  import opened Length
  import opened Layout

  /**
   * `Error` of the crate. `RedundantEncode` is the kind that the crate's
   * tests expect from a decoder given a non-canonical encoding; the
   * source's `Error` enum lacks it (see `Decoding`).
   */
  datatype Error = LeadingOnes | Truncated | RedundantEncode

  datatype Result<T> = Ok(value: T) | Err(error: Error)

  /**
   * The shift amount of `check_result_with_length` for a `u8` length:
   * `7 * (length - 1)` in wrapping `u8` arithmetic, masked to its low six
   * bits by the `u64` shift, as a release build computes it. For lengths
   * 1..10 nothing wraps and the amount is `7 * (length - 1)`; a debug build
   * panics on every other length instead.
   */
  function ShiftAmount(length: nat): (s: nat)
    requires length < 256
    ensures s < 64
    ensures 1 <= length <= 10 ==> s == 7 * (length - 1)
  {
    ((7 * ((length + 255) % 256)) % 256) % 64
  }

  /**
   * `check_result_with_length`: a `length`-byte decoding is accepted when
   * `length` is 1 or the value reaches `1 << ShiftAmount(length)`.
   */
  function CheckResultWithLength(length: nat, result: bv64): (r: Result<bv64>)
    requires length < 256
    ensures r.Ok? ==> r.value == result
    ensures r.Err? ==> r.error == LeadingOnes
  {
    if length == 1 || result >= (1 as bv64) << (ShiftAmount(length) as bv64) then Ok(result) else Err(LeadingOnes)
  }

  /** The check accepts exactly the values whose own encoding takes at least `length` bytes. */
  lemma CheckResultMeaning(length: nat, result: bv64)
    requires 1 <= length <= 9
    ensures CheckResultWithLength(length, result).Ok? <==> LengthOf(result) >= length
  {
    if length == 1 {
    } else if length == 2 {
      CheckResult2(result);
    } else if length == 3 {
      CheckResult3(result);
    } else if length == 4 {
      CheckResult4(result);
    } else if length == 5 {
      CheckResult5(result);
    } else if length == 6 {
      CheckResult6(result);
    } else if length == 7 {
      CheckResult7(result);
    } else if length == 8 {
      CheckResult8(result);
    } else {
      CheckResult9(result);
    }
  }

  lemma CheckResult2(result: bv64)
    ensures CheckResultWithLength(2, result).Ok? <==> LengthOf(result) >= 2
  {
  }

  lemma CheckResult3(result: bv64)
    ensures CheckResultWithLength(3, result).Ok? <==> LengthOf(result) >= 3
  {
  }

  lemma CheckResult4(result: bv64)
    ensures CheckResultWithLength(4, result).Ok? <==> LengthOf(result) >= 4
  {
  }

  lemma CheckResult5(result: bv64)
    ensures CheckResultWithLength(5, result).Ok? <==> LengthOf(result) >= 5
  {
  }

  lemma CheckResult6(result: bv64)
    ensures CheckResultWithLength(6, result).Ok? <==> LengthOf(result) >= 6
  {
  }

  lemma CheckResult7(result: bv64)
    ensures CheckResultWithLength(7, result).Ok? <==> LengthOf(result) >= 7
  {
  }

  lemma CheckResult8(result: bv64)
    ensures CheckResultWithLength(8, result).Ok? <==> LengthOf(result) >= 8
  {
  }

  lemma CheckResult9(result: bv64)
    ensures CheckResultWithLength(9, result).Ok? <==> LengthOf(result) >= 9
  {
  }

  /** With `length == 10` only values with the top bit set pass. */
  lemma CheckResultTen(result: bv64)
    ensures CheckResultWithLength(10, result).Ok? <==> result >= 0x8000_0000_0000_0000
  {
  }

  /**
   * The corrected verdict on a decoded value: a `length`-byte decoding is
   * accepted only if `check_result_with_length` accepts it, and is otherwise
   * a redundant (non-canonical) encoding.
   */
  function RejectRedundant(length: nat, v: bv64): (r: Result<bv64>)
    requires 1 <= length <= 9
    ensures r.Ok? <==> CheckResultWithLength(length, v).Ok?
    ensures r.Ok? <==> LengthOf(v) >= length
    ensures r.Ok? ==> r.value == v
    ensures r.Err? ==> r.error == RedundantEncode
  {
    CheckResultMeaning(length, v);
    if LengthOf(v) >= length then Ok(v) else Err(RedundantEncode)
  }

  /**
   * The outcome of `decode_with_length(length, bytes)`: too few bytes are
   * `Truncated`; otherwise the first `length` bytes are read (the rest are
   * never looked at) and the value must be canonical.
   */
  function DecodingWithLength(length: nat, bytes: seq<bv8>): (r: Result<bv64>)
    requires 1 <= length <= 9
    ensures r == Err(Truncated) <==> |bytes| < length
    ensures r.Ok? ==> LengthOf(r.value) >= length
    ensures r.Err? ==> r.error == Truncated || r.error == RedundantEncode
  {
    if |bytes| < length then Err(Truncated)
    else RejectRedundant(length, Unpack(length, bytes[0], bytes[1..length]))
  }

  /**
   * The outcome of `decode(bytes)`: an empty input is `Truncated`, otherwise
   * the first byte announces the length.
   *
   * The source's decoders only `debug_assert!` that the value is canonical
   * (lib.rs lines 322, 367 and 396), so a release build accepts redundant
   * encodings such as `[0x81, 0x00]`, while the crate's tests expect
   * `Error::RedundantEncode` for them. This function is the behaviour the
   * tests expect; `DecodingAsWritten` is the code as written.
   */
  function Decoding(bytes: seq<bv8>): (r: Result<bv64>)
    ensures r.Ok? ==> |bytes| > 0 && DecodedLen(bytes[0]) <= |bytes|
    ensures r.Ok? ==> LengthOf(r.value) == DecodedLen(bytes[0])
  {
    if |bytes| == 0 then Err(Truncated)
    else
      DecodingWithPrefix(DecodedLen(bytes[0]), bytes);
      DecodingWithLength(DecodedLen(bytes[0]), bytes)
  }

  /**
   * Given a first byte with the prefix code of `length`, a successful
   * `length`-byte decoding yields a value of exactly that length class.
   */
  lemma DecodingWithPrefix(length: nat, bytes: seq<bv8>)
    requires 1 <= length <= 9 && |bytes| > 0 && HasPrefix(bytes[0], length)
    ensures DecodingWithLength(length, bytes).Ok? ==> LengthOf(DecodingWithLength(length, bytes).value) == length
  {
    if length <= |bytes| {
      UnpackPacks(length, bytes[0], bytes[1..length]);
    }
  }

  /** `decode` as the source writes it: the value is not checked for redundancy. */
  function DecodingAsWritten(bytes: seq<bv8>): (r: Result<bv64>)
    ensures r.Err? ==> r.error == Truncated
  {
    if |bytes| == 0 then Err(Truncated)
    else
      var length := DecodedLen(bytes[0]);
      if |bytes| < length then Err(Truncated)
      else Ok(Unpack(length, bytes[0], bytes[1..length]))
  }

  /** The canonical encoding of `v`: its length class, laid out. */
  function Encoded(v: bv64): (s: seq<bv8>)
    ensures |s| == LengthOf(v)
  {
    Pack(LengthOf(v), v)
  }

  /** The canonical encoding, followed by anything, decodes to `v`. */
  lemma DecodingOfEncoded(v: bv64, rest: seq<bv8>)
    ensures Decoding(Encoded(v) + rest) == Ok(v)
  {
    var length, s := LengthOf(v), Encoded(v) + rest;
    var first, follow := FirstByte(length, v), FollowBytes(length, v);
    PackUnpacks(length, v);
    ConsParts(first, follow, rest);
    DecodedLenOfPrefix(first, length);
    assert Unpack(length, s[0], s[1..length]) == v;
    CheckResultMeaning(length, v);
    assert RejectRedundant(length, v) == Ok(v);
    assert DecodingWithLength(length, s) == Ok(v);
    assert DecodedLen(s[0]) == length;
  }

  lemma ConsParts<T>(first: T, follow: seq<T>, rest: seq<T>)
    ensures var s := [first] + follow + rest;
      s[0] == first && s[1..1 + |follow|] == follow
  {
  }

  /** Every value passes the check at its own length class: what `encode` writes satisfies the decoders' assertion. */
  lemma EncodedPassesCheck(v: bv64)
    ensures CheckResultWithLength(LengthOf(v), v) == Ok(v)
  {
    CheckResultMeaning(LengthOf(v), v);
  }

  /**
   * `decode_with_length` given the encoded length decodes the encoding, and
   * reports one byte fewer as `Truncated`.
   */
  lemma DecodingWithLengthOfEncoded(v: bv64, rest: seq<bv8>)
    ensures DecodingWithLength(EncodedLen(v), Encoded(v) + rest) == Ok(v)
    ensures DecodingWithLength(EncodedLen(v), Encoded(v)[..EncodedLen(v) - 1]) == Err(Truncated)
  {
    DecodingOfEncoded(v, rest);
    EncodedAnnouncesLength(v);
    assert (Encoded(v) + rest)[0] == Encoded(v)[0];
  }

  /** Whatever decodes to `v` starts with the canonical encoding of `v`. */
  lemma DecodedIsEncoded(bytes: seq<bv8>, v: bv64)
    requires Decoding(bytes) == Ok(v)
    ensures LengthOf(v) <= |bytes| && bytes[..LengthOf(v)] == Encoded(v)
  {
    var length := DecodedParts(bytes, v);
    var first, follow := bytes[0], bytes[1..length];
    UnpackPacks(length, first, follow);
    assert LengthOf(v) == length;
    PrefixParts(bytes, length);
  }

  lemma PrefixParts<T>(s: seq<T>, n: nat)
    requires 1 <= n <= |s|
    ensures s[..n] == [s[0]] + s[1..n]
  {
  }

  /** What a successful decoding reveals: the announced length, the bytes read and the check passed. */
  lemma DecodedParts(bytes: seq<bv8>, v: bv64) returns (length: nat)
    requires Decoding(bytes) == Ok(v)
    ensures |bytes| > 0 && length == DecodedLen(bytes[0]) && length <= |bytes|
    ensures HasPrefix(bytes[0], length)
    ensures Unpack(length, bytes[0], bytes[1..length]) == v && LengthOf(v) >= length
  {
    length := DecodedLen(bytes[0]);
    CheckResultMeaning(length, v);
  }

  /**
   * Decoding accepts exactly the canonical encodings: `bytes` decodes to `v`
   * if and only if it starts with the encoding of `v`.
   */
  lemma DecodingCanonical(bytes: seq<bv8>, v: bv64)
    ensures Decoding(bytes) == Ok(v) <==> LengthOf(v) <= |bytes| && bytes[..LengthOf(v)] == Encoded(v)
  {
    if Decoding(bytes) == Ok(v) {
      DecodedIsEncoded(bytes, v);
    }
    var n := LengthOf(v);
    if n <= |bytes| && bytes[..n] == Encoded(v) {
      var rest := bytes[n..];
      SplitAt(bytes, n);
      DecodingOfEncoded(v, rest);
    }
  }

  /** A sequence is its first `n` elements followed by the rest. */
  lemma SplitAt<T>(s: seq<T>, n: nat)
    requires n <= |s|
    ensures s == s[..n] + s[n..]
  {
  }

  /** Two values with the same encoding are equal. */
  lemma EncodedInjective(a: bv64, b: bv64)
    requires Encoded(a) == Encoded(b)
    ensures a == b
  {
    DecodingOfEncoded(a, []);
    DecodingOfEncoded(b, []);
    assert Encoded(a) + [] == Encoded(b) + [];
  }

  /** The first byte of an encoding announces the encoding's length. */
  lemma EncodedAnnouncesLength(v: bv64)
    ensures DecodedLen(Encoded(v)[0]) == LengthOf(v)
  {
    PackUnpacks(LengthOf(v), v);
    DecodedLenOfPrefix(Encoded(v)[0], LengthOf(v));
  }

  /** An input is `Truncated` exactly when it is empty or shorter than its first byte announces. */
  lemma DecodingTruncated(bytes: seq<bv8>)
    ensures Decoding(bytes) == Err(Truncated) <==> |bytes| == 0 || |bytes| < DecodedLen(bytes[0])
  {
  }

  /** Every strict prefix of an encoding is `Truncated`. */
  lemma DecodingOfStrictPrefix(v: bv64, n: nat)
    requires n < LengthOf(v)
    ensures Decoding(Encoded(v)[..n]) == Err(Truncated)
  {
    if n > 0 {
      EncodedAnnouncesLength(v);
      assert Encoded(v)[..n][0] == Encoded(v)[0];
    }
  }

  /** Bytes after the announced length are never read. */
  lemma DecodingIgnoresRest(bytes: seq<bv8>, rest: seq<bv8>)
    requires |bytes| > 0 && DecodedLen(bytes[0]) <= |bytes|
    ensures Decoding(bytes + rest) == Decoding(bytes)
  {
    var length := DecodedLen(bytes[0]);
    ConcatParts(bytes, rest, length);
  }

  lemma ConcatParts<T>(s: seq<T>, rest: seq<T>, n: nat)
    requires 1 <= n <= |s|
    ensures (s + rest)[0] == s[0] && (s + rest)[1..n] == s[1..n]
  {
  }

  /** A decoder never reports `LeadingOnes`: that kind belongs to the length check alone. */
  lemma DecodingErrors(bytes: seq<bv8>)
    ensures Decoding(bytes).Err? ==> Decoding(bytes).error in {Truncated, RedundantEncode}
  {
  }

  /**
   * The code as written and the corrected decoder differ only on redundant
   * encodings: where the corrected one succeeds both agree, and where it
   * reports `RedundantEncode` the code as written returns a value whose
   * canonical encoding is shorter than the bytes it consumed.
   */
  lemma AsWrittenAcceptsRedundant(bytes: seq<bv8>)
    ensures Decoding(bytes).Ok? ==> DecodingAsWritten(bytes) == Decoding(bytes)
    ensures Decoding(bytes) == Err(Truncated) <==> DecodingAsWritten(bytes) == Err(Truncated)
    ensures Decoding(bytes) == Err(RedundantEncode) ==>
      DecodingAsWritten(bytes).Ok? && LengthOf(DecodingAsWritten(bytes).value) < DecodedLen(bytes[0])
  {
    if |bytes| > 0 && DecodedLen(bytes[0]) <= |bytes| {
      var length := DecodedLen(bytes[0]);
      CheckResultMeaning(length, Unpack(length, bytes[0], bytes[1..length]));
    }
  }
}
