/**
 * Zigzag encoding of `i64` into `u64`, as the protocol-buffers format
 * defines it: 0, -1, 1, -2, 2, ... map to 0, 1, 2, 3, 4, ...
 * An `i64` is modelled by its two's-complement bits in a `bv64`, so that
 * `i64` arithmetic is the wrapping arithmetic of `bv64`; a value is
 * negative when its top bit is set.
 */
module Zigzag {

  predicate IsNegative(value: bv64)
  {
    value >> 63 == 1
  }

  /**
   * The `i64` expression `value >> 63`: an arithmetic shift, so all ones for
   * a negative value and zero otherwise.
   */
  function SignMask(value: bv64): (m: bv64)
    ensures m == if IsNegative(value) then 0xFFFF_FFFF_FFFF_FFFF else 0
  {
    if IsNegative(value) then 0xFFFF_FFFF_FFFF_FFFF else 0
  }

  /**
   * `zigzag::encode`: `((value << 1) ^ (value >> 63)) as u64`. The sign goes
   * to the lowest bit, and the bits above it hold `value` itself when it is
   * not negative and its complement `-value - 1` when it is; the contract
   * states the sign bit and the negative case, and `EncodeValue` gives both
   * cases as numbers.
   */
  function Encode(value: bv64): (r: bv64)
    ensures r & 1 == 1 <==> IsNegative(value)
    ensures IsNegative(value) ==> r >> 1 == !value
  {
    (value << 1) ^ SignMask(value)
  }

  /**
   * `zigzag::decode`: `(encoded >> 1) as i64 ^ -((encoded & 1) as i64)`. An
   * even code gives its upper bits as they are, an odd one their complement,
   * which is a negative number; the contract states the sign and the odd case.
   */
  function Decode(encoded: bv64): (r: bv64)
    ensures IsNegative(r) <==> encoded & 1 == 1
    ensures encoded & 1 == 1 ==> r == !(encoded >> 1)
  {
    (encoded >> 1) ^ (0 - (encoded & 1))
  }

  /** Decoding undoes encoding. */
  lemma DecodeEncode(value: bv64)
    ensures Decode(Encode(value)) == value
  {
    if IsNegative(value) {
      EncodeNegative(value);
      DecodeOdd(!(value << 1));
      NegativeBack(value);
    } else {
      EncodeNonNegative(value);
      DecodeEven(value << 1);
      NonNegativeBack(value);
    }
  }

  /** Encoding undoes decoding: zigzag is a bijection on 64 bits. */
  lemma EncodeDecode(encoded: bv64)
    ensures Encode(Decode(encoded)) == encoded
  {
    if encoded & 1 == 0 {
      DecodeEven(encoded);
      EvenBack(encoded);
      EncodeNonNegative(encoded >> 1);
    } else {
      DecodeOdd(encoded);
      OddBack(encoded);
      EncodeNegative(!(encoded >> 1));
    }
  }

  lemma EncodeNonNegative(value: bv64)
    requires !IsNegative(value)
    ensures Encode(value) == value << 1 && (value << 1) & 1 == 0
  {
  }

  lemma EncodeNegative(value: bv64)
    requires IsNegative(value)
    ensures Encode(value) == !(value << 1) && (!(value << 1)) & 1 == 1
  {
  }

  lemma DecodeEven(encoded: bv64)
    requires encoded & 1 == 0
    ensures Decode(encoded) == encoded >> 1
  {
  }

  lemma DecodeOdd(encoded: bv64)
    requires encoded & 1 == 1
    ensures Decode(encoded) == !(encoded >> 1)
  {
  }

  lemma NonNegativeBack(value: bv64)
    requires value >> 63 == 0
    ensures (value << 1) >> 1 == value
  {
  }

  lemma NegativeBack(value: bv64)
    requires value >> 63 == 1
    ensures !((!(value << 1)) >> 1) == value
  {
  }

  lemma EvenBack(encoded: bv64)
    requires encoded & 1 == 0
    ensures (encoded >> 1) >> 63 == 0 && (encoded >> 1) << 1 == encoded
  {
  }

  lemma OddBack(encoded: bv64)
    requires encoded & 1 == 1
    ensures (!(encoded >> 1)) >> 63 == 1 && !((!(encoded >> 1)) << 1) == encoded
  {
  }

  /**
   * The value laws: a number that is not negative encodes to twice itself,
   * a negative number `v` to `-2v - 1`. Both sides are 64-bit two's-complement
   * arithmetic; the parity clause shows neither doubling lost its top bit.
   */
  lemma EncodeValue(value: bv64)
    ensures !IsNegative(value) ==> Encode(value) == value * 2 && Encode(value) >> 1 == value
    ensures IsNegative(value) ==> Encode(value) == (0 - value) * 2 - 1 && Encode(value) >> 1 == (0 - value) - 1
  {
    if IsNegative(value) {
      EncodeNegative(value);
      NegativeDoubled(value);
    } else {
      EncodeNonNegative(value);
      NonNegativeBack(value);
      NonNegativeDoubled(value);
    }
  }

  lemma NonNegativeDoubled(value: bv64)
    ensures value << 1 == value * 2
  {
  }

  lemma NegativeDoubled(value: bv64)
    requires value >> 63 == 1
    ensures !(value << 1) == (0 - value) * 2 - 1 && (!(value << 1)) >> 1 == (0 - value) - 1
  {
  }

  /** Numbers from -10 to 10 encode to at most 20. */
  lemma SmallValues(value: bv64)
    requires value <= 10 || value >= 0 - 10
    ensures Encode(value) <= 20
  {
    EncodeValue(value);
  }

  /** Numbers that are not negative encode to even numbers, negative ones to odd numbers. */
  lemma EncodeParity(value: bv64)
    ensures Encode(value) & 1 == 0 <==> !IsNegative(value)
  {
    if IsNegative(value) {
      assert Encode(value) == !(value << 1);
    }
  }
}

/**
 * The signed API: an `i64` is zigzag-encoded to a `u64`, which is then
 * written as a `vu64`.
 */
module Signed {
  import opened Length
  import opened Format
  import Codec
  import Zigzag

  /**
   * `signed::encode` and `From<i64> for Vu64`: the `vu64` of the zigzag
   * encoding of `value`.
   */
  method Encode(value: bv64) returns (r: Codec.Vu64)
    ensures r == Codec.Encoding(Zigzag.Encode(value))
    ensures r.AsRef() == Encoded(Zigzag.Encode(value))
  {
    r := Codec.Encode(Zigzag.Encode(value));
    Codec.EncodingRoundTrip(Zigzag.Encode(value));
  }

  /** `signed::encoded_len`: the number of bytes `signed::encode(value)` writes. */
  function EncodedLen(value: bv64): (n: nat)
    ensures n == |Encoded(Zigzag.Encode(value))|
    ensures 1 <= n <= MAX_BYTES
  {
    Length.EncodedLen(Zigzag.Encode(value))
  }

  /**
   * `signed::decode`: decodes a `vu64` and zigzag-decodes the number.
   * Every error of the unsigned decoder is passed on unchanged. The source
   * takes `&mut &[u8]` but never advances the slice, so the input is a byte
   * sequence here.
   */
  function Decoding(bytes: seq<bv8>): (r: Result<bv64>)
    ensures r.Ok? <==> Format.Decoding(bytes).Ok?
    ensures r.Err? ==> r.error == Format.Decoding(bytes).error
    ensures r.Ok? ==> Zigzag.Encode(r.value) == Format.Decoding(bytes).value
  {
    match Format.Decoding(bytes)
    case Ok(u) =>
      Zigzag.EncodeDecode(u);
      Ok(Zigzag.Decode(u))
    case Err(e) => Err(e)
  }

  /** The signed decoder as a method over the unsigned one. */
  method Decode(bytes: seq<bv8>) returns (r: Result<bv64>)
    ensures r == Decoding(bytes)
  {
    var u := Codec.Decode(bytes);
    match u
    case Ok(x) => r := Ok(Zigzag.Decode(x));
    case Err(e) => r := Err(e);
  }

  /** Decoding what `signed::encode` wrote gives back the number, whatever follows. */
  lemma RoundTrip(value: bv64, rest: seq<bv8>)
    ensures Decoding(Encoded(Zigzag.Encode(value)) + rest) == Ok(value)
  {
    DecodingOfEncoded(Zigzag.Encode(value), rest);
    Zigzag.DecodeEncode(value);
  }

  /** Two signed numbers encode alike exactly when they are equal. */
  lemma EncodedInjective(a: bv64, b: bv64)
    ensures Encoded(Zigzag.Encode(a)) == Encoded(Zigzag.Encode(b)) <==> a == b
  {
    if Encoded(Zigzag.Encode(a)) == Encoded(Zigzag.Encode(b)) {
      RoundTrip(a, []);
      RoundTrip(b, []);
    }
  }
}
