# vu64 in Dafny

A model of `vu64`, a variable-length encoding of 64-bit unsigned integers.

- A `u64` is written in 1 to 9 bytes. The run of leading one bits in the first byte tells how many bytes follow:
  - `0xxxxxxx` is 1 byte, `10xxxxxx` is 2 bytes, and so on up to `1111110x` for 7 bytes;
  - `0xFE` announces 8 bytes and `0xFF` announces 9.
- Lengths 2 to 7 keep the low payload bits in the first byte and the rest of the value little-endian in the follow bytes. Lengths 8 and 9 store the whole value little-endian after the marker byte.
- A signed layer maps an `i64` to a `u64` by zigzag encoding (0, -1, 1, -2, ... become 0, 1, 2, 3, ...) before writing it.

`u64` and `i64` are `bv64` and bytes are `bv8`, so Rust's shifts, truncating casts and wrapping arithmetic are modelled exactly. An `i64` is its two's-complement bits.

Modules, in dependency order:

- `Bits`: leading zeros and ones, `to_le_bytes`/`from_le_bytes`, and the little-endian value of a short byte sequence.
- `Length`: the `MAX_LEN1..9` constants, the length classes, `encoded_len` with its 65-entry table, and `decoded_len`.
- `Layout`: the byte layout of each length (`Pack`/`Unpack`) and the per-length bit tricks of the source, proved to agree with it.
- `Format`: the error kinds, `check_result_with_length`, and the meaning of decoding (`Decoding`, and `DecodingAsWritten` for the code as written). Also the main theorems: round trip, canonicity as an if-and-only-if, truncation, and bytes past the length never read.
- `Codec`: the `Vu64` value, and `encode` as a method filling an `array` in place. `decode` and `decode2` are methods built on a `while` loop that accumulates the follow bytes. `decode3`, `try_from` and the conversions complete the module. Each method is proved against the `Format` functions.
- `Zigzag` and `Signed`: `src/signed.rs`.
- `Vectors`: the fixed encodings and the redundant inputs from the crate's tests.

The crate's tests expect every decoder to reject a non-canonical encoding with `RedundantEncode`, but the decoders only `debug_assert!` that the encoding is canonical, and the crate's `Error` has no such kind (see "## Findings"). The model follows the code in `Format.DecodingAsWritten`. The behaviour the tests expect, rejecting the input, is `Format.Decoding`, which the rest of the model uses.

The crate's test of `[0xC0, 0x80, 0x00]` says the bytes represent 128. They hold 4096 (`Vectors.RedundantTwoBytes`). Either way the input is redundant and is rejected.

## Model

| member | source | states |
|---|---|---|
| Bits.LeadingZeros | src/lib.rs:152 | `u64::leading_zeros`, a `u32`: at most 64, and 64 only for zero |
| Bits.LeadingZerosCounts | src/lib.rs:152 | for a count `n` below 64, bit `63 - n` of the value is set and every bit above it is clear |
| Bits.LeadingOnes | src/lib.rs:182 | `u8::leading_ones`, a `u32`, is at most 8; `Bits.LeadingOnesCounts` states what it counts |
| Bits.LeadingOnesCounts | src/lib.rs:182 | `u8::leading_ones` is the run of set bits at the top of the byte: the top `n` bits are set and, below 8, the next bit is clear |
| Bits.FromToLeBytes | src/lib.rs:196 | `from_le_bytes` undoes `to_le_bytes` |
| Bits.ToFromLeBytes | src/lib.rs:314 | `to_le_bytes` undoes `from_le_bytes` on 8 bytes |
| Bits.LeValueCons | src/lib.rs:296-299 | one step of the accumulation loop `val << 8 \| b` prepends byte `b` to the little-endian number |
| Bits.LeValueBound | src/lib.rs:340-345 | `n` follow bytes read little-endian give a number that fits in `n` bytes |
| Bits.LeBytesOfLeValue | src/lib.rs:196 | writing the little-endian value of `n` bytes gives those bytes back |
| Length.LengthOfMinimal | src/lib.rs:64-98 | the length class of a value is the least `n` whose `MAX_LENn` holds it |
| Length.LengthOfUnique | src/lib.rs:64-98 | any `n` whose `MAX_LENn` holds the value while `MAX_LEN(n-1)` does not is the length class |
| Length.TableEntry | src/lib.rs:162-175 | entry `z` of `ENCODED_LEN_TBL` is the least `n` whose `7n` payload bits (64 for `n = 9`) hold a value with `z` leading zeros |
| Length.EncodedLen | src/lib.rs:150-160 | `encoded_len`, the table lookup by leading zeros, is the length class of the value |
| Length.EncodedLenBoundaries | src/lib.rs:64-98 | `encoded_len` is 1 at 0, `n` at `MAX_LENn` and `n + 1` just above it |
| Length.DecodedLen | src/lib.rs:180-183 | `decoded_len` is in 1..9 and the byte carries the prefix code of that length |
| Length.PrefixRange | src/lib.rs:12-22 | a byte has the prefix code of length `k` exactly when it lies in the first-byte range of `k` in the format table |
| Length.DecodedLenOfPrefix | src/lib.rs:180-183 | a byte with the prefix code of `k` announces `k` bytes |
| Length.DecodedLenRanges | src/lib.rs:12-22 | `decoded_len` of the ranges `00-7F`, `80-BF`, ..., `FE`, `FF` is 1 to 9 |
| Layout.Pack | src/lib.rs:12-22 | an encoding of `length` bytes has `length` bytes, its first byte carries the prefix code of `length` and, in its payload bits, the low bits of the value |
| Layout.Unpack | src/lib.rs:12-22 | reading `length` bytes: up to 7 bytes the low payload bits of the value are those of the first byte, and for 2 to 7 bytes the bits above them are the follow bytes read little-endian |
| Layout.PackBitsAt | src/lib.rs:194-198 | for 2 to 7 bytes the high part of a value fits in the follow bytes, the first byte has the prefix code, and the two join back to the value |
| Layout.UnpackBitsAt | src/lib.rs:296-301 | bytes with a prefix code join to a value of at most that length whose layout is those bytes again |
| Layout.EncodeBitsAt | src/lib.rs:195-198 | `value << length` holds the follow bytes, zeros above them, and a low byte that `!((!(b >> 1)) >> (length - 1))` turns into the first byte |
| Layout.DecodeBitsAt | src/lib.rs:300-301 | `((val << 8) \| (first << length) as u64) >> length` puts the follow value above the first byte's payload bits |
| Layout.PackUnpacks | src/lib.rs:186-216 | the encoding of every length is read back as the value it was made from |
| Layout.UnpackPacks | src/lib.rs:266-324 | bytes with a prefix code are read as a value that fits in that length, and re-encoding it at that length gives the bytes back |
| Format.ShiftAmount | src/lib.rs:258 | the shift amount `7 * (length - 1)` of a release build is below 64 for every `u8` length, and is `7 * (length - 1)` itself for lengths 1..10 |
| Format.CheckResultWithLength | src/lib.rs:257-264 | `check_result_with_length` returns the value unchanged or `LeadingOnes` |
| Format.CheckResultMeaning | src/lib.rs:257-264 | the check accepts exactly the values whose length class is at least `length` |
| Format.CheckResultTen | src/lib.rs:257-264 | at length 10 the threshold is `2^63`: only values with the top bit set pass |
| Format.RejectRedundant | src/lib.rs:322 | a decoded value is accepted iff the check passes, and is otherwise `RedundantEncode` |
| Format.DecodingWithLength | src/lib.rs:266-324 | `decode_with_length` is `Truncated` iff there are fewer than `length` bytes, fails with nothing but `Truncated` or `RedundantEncode`, and accepts only values whose length class is at least `length` |
| Format.Decoding | src/lib.rs:224-231 | a successful `decode` had at least the bytes the first byte announces, and its value's length class is exactly that length |
| Format.DecodingWithPrefix | src/lib.rs:266-324 | with a first byte carrying the prefix code of `length`, a `length`-byte decoding succeeds only on a value of exactly that length class |
| Format.DecodingAsWritten | src/lib.rs:224-324 | `decode` as written fails only with `Truncated` |
| Format.Encoded | src/lib.rs:186-216 | the canonical encoding has as many bytes as the length class |
| Format.DecodingOfEncoded | src/lib.rs:224-231 | the encoding of `v`, followed by anything, decodes to `v` |
| Format.EncodedPassesCheck | src/lib.rs:322 | every value passes the decoders' check at its own length |
| Format.DecodingWithLengthOfEncoded | src/lib.rs:266-269 | `decode_with_length(encoded_len(v), ...)` decodes the encoding of `v`, and is `Truncated` on one byte fewer |
| Format.DecodedIsEncoded | src/lib.rs:224-231 | whatever decodes to `v` starts with the encoding of `v` |
| Format.DecodingCanonical | src/lib.rs:224-231 | `bytes` decodes to `v` iff it starts with the canonical encoding of `v` |
| Format.EncodedInjective | src/lib.rs:186-216 | two values with the same encoding are equal |
| Format.EncodedAnnouncesLength | src/lib.rs:180-216 | `decoded_len` of an encoding's first byte is `encoded_len` of its value |
| Format.DecodingTruncated | src/lib.rs:225-227 | the result is `Truncated` iff the input is empty or shorter than its first byte announces |
| Format.DecodingOfStrictPrefix | src/lib.rs:267-269 | every strict prefix of an encoding is `Truncated` |
| Format.DecodingIgnoresRest | src/lib.rs:266-324 | bytes after the announced length do not change the result |
| Format.DecodingErrors | src/lib.rs:224-231 | a decoder reports only `Truncated` or `RedundantEncode`, never `LeadingOnes` |
| Format.AsWrittenAcceptsRedundant | src/lib.rs:322 | the code as written agrees with the corrected decoder except on redundant input, where it returns a value shorter than the bytes it read |
| Codec.Vu64.AsRef | src/lib.rs:112-117 | `as_ref` has `length` bytes |
| Codec.Encoding | src/lib.rs:126-131 | `Vu64::from(u64)` has a length in 1..9 and a 9-byte buffer |
| Codec.EncodingRoundTrip | src/lib.rs:186-216 | the bytes of `encode(v)` are the canonical encoding and decode back to `v`, and the buffer is zero after them |
| Codec.Encode | src/lib.rs:186-216 | `encode` returns the `Vu64` of the value |
| Codec.Store | src/lib.rs:187-213 | the buffer ends up holding the first byte, the follow bytes, then zeros |
| Codec.StoreShifted | src/lib.rs:194-198 | for 2 to 7 bytes the buffer holds `value << length` little-endian with its low byte turned into the first byte |
| Codec.StoreLong | src/lib.rs:199-207 | for 8 and 9 bytes the buffer holds `0xFE` or `0xFF`, then the value little-endian |
| Codec.CopyFromSlice | src/lib.rs:200 | `copy_from_slice` writes its slice and leaves the other bytes alone |
| Codec.DecodeWithLength | src/lib.rs:266-324 | `decode_with_length` is `Truncated` on too few bytes and otherwise reads and checks the first `length` bytes |
| Codec.DecodeWithFirstAndFollow | src/lib.rs:326-369 | `decode_with_first_and_follow` decodes as `decode_with_length` on the first byte followed by the follow bytes |
| Codec.Assemble | src/lib.rs:336-365 | the value read from the first byte and `length - 1` follow bytes, per length class |
| Codec.ReadFollow | src/lib.rs:340-345 | the descending-index loop reads the bytes as a little-endian number |
| Codec.ShiftIn | src/lib.rs:346-347 | the shift step joins the follow value with the first byte's payload bits |
| Codec.CheckCanonical | src/lib.rs:367 | the final check, with `RedundantEncode` on failure |
| Codec.Decode | src/lib.rs:224-231 | `decode` is `Decoding` |
| Codec.Decode2 | src/lib.rs:239-243 | `decode2(first, follow)` decodes as `decode` on their concatenation |
| Codec.DecodeWithFirstAndFollowLe | src/lib.rs:371-398 | `decode_with_first_and_follow_le` fails only with `RedundantEncode`, and accepts only values whose length class is at least `length` |
| Codec.Decode3 | src/lib.rs:251-255 | `decode3` fails only with `RedundantEncode`, and a value it accepts has at least the length class its first byte announces |
| Codec.Decode3Agrees | src/lib.rs:251-255 | `decode3` on the follow bytes zero-padded to a word decodes as `decode` on the bytes |
| Codec.TryFrom | src/lib.rs:140-147 | `try_from` succeeds iff `decode` does, and then holds `encode` of the decoded value, otherwise it has `decode`'s error |
| Codec.TryFromPrefix | src/lib.rs:140-147 | the `Vu64` that `try_from` returns holds exactly the bytes the slice starts with |
| Codec.EncodingInjective | src/lib.rs:104 | two `Vu64` built from numbers are equal iff the numbers are |
| Codec.DecodingOfBuffer | src/lib.rs:187-215 | `encode` starts from a zeroed 9-byte buffer, and the whole buffer, zeros after the encoding included, decodes to the value (extending the test at src/lib.rs:501-506, which decodes `as_ref()`) |
| Codec.Decode3OfBuffer | src/lib.rs:518-533 | `decode3` of the first byte and the rest of the buffer as one word gives the value back |
| Zigzag.Encode | src/signed.rs:36-38 | `zigzag::encode` puts the sign in bit 0 (set exactly for a negative number) and, for a negative `v`, its complement `-v - 1` in the bits above; `Zigzag.EncodeValue` gives the value law for both signs |
| Zigzag.Decode | src/signed.rs:40-44 | `zigzag::decode` gives a negative number exactly for an odd code, the complement of the code's upper bits; `Zigzag.DecodeEncode` and `Zigzag.EncodeDecode` show it inverts `Encode` |
| Zigzag.DecodeEncode | src/signed.rs:36-44 | `zigzag::decode` undoes `zigzag::encode` |
| Zigzag.EncodeDecode | src/signed.rs:36-44 | `zigzag::encode` undoes `zigzag::decode`, so zigzag is a bijection |
| Zigzag.EncodeValue | src/signed.rs:36-38 | a non-negative `v` encodes to `2v` and a negative `v` to `-2v - 1`, without losing a bit |
| Zigzag.EncodeParity | src/signed.rs:36-38 | a number encodes to an even number iff it is not negative |
| Zigzag.SmallValues | src/signed.rs:36-38 | numbers from -10 to 10 encode to at most 20 |
| Signed.Encode | src/signed.rs:7-10 | `signed::encode` and `From<i64>` give the `Vu64` of the zigzag encoding |
| Signed.EncodedLen | src/signed.rs:19-22 | `signed::encoded_len` is the length of what `signed::encode` writes |
| Signed.Decoding | src/signed.rs:13-16 | `signed::decode` succeeds iff the unsigned decoder does, passes its errors on unchanged, and returns the number whose zigzag encoding was decoded |
| Signed.Decode | src/signed.rs:13-16 | the method is `Signed.Decoding` |
| Signed.RoundTrip | src/signed.rs:7-16 | decoding what `signed::encode` wrote gives the number back |
| Signed.EncodedInjective | src/signed.rs:7-10 | two signed numbers encode alike iff they are equal |
| Vectors.EncodedZero | src/lib.rs:607-612 | 0 encodes to `[00]` |
| Vectors.EncodedSevenBits | src/lib.rs:623-628 | `MAX_LEN1` encodes to `[7F]` |
| Vectors.EncodedEightBits | src/lib.rs:638-642 | `MAX_LEN1 + 1` encodes to `[80 02]` |
| Vectors.EncodedTwoBytes | src/lib.rs:427 | `0x0f0f` encodes to `[8F 3C]` |
| Vectors.EncodedFourBytes | src/lib.rs:428 | `0x0f0f_f0f0` encodes to `[E0 0F FF F0]` |
| Vectors.EncodedSevenBytes | src/lib.rs:429-432 | `0x0f0f_f0f0_0f0f` encodes to 7 bytes |
| Vectors.EncodedNineBytes | src/lib.rs:433-436 | `0x0f0f_f0f0_0f0f_f0f0` encodes to 9 bytes |
| Vectors.EncodedMax | src/lib.rs:540-548 | `u64::MAX` encodes to nine `FF` |
| Vectors.RedundantOne | tests/test1.rs:71-75 | `[81 00]` is 1 for the code as written and `RedundantEncode` when checked |
| Vectors.RedundantTwoBytes | tests/test1.rs:77-79 | `[C0 80 00]` is 4096 for the code as written and `RedundantEncode` when checked |
| Vectors.RedundantThreeBytes | tests/test.rs:4-16 | `[DD 00 00]` is 29 for the code as written and `RedundantEncode` when checked |
| Vectors.RedundantPrefixOneByte | tests/test.rs:50 | the first buffer of the redundant dataset is rejected |
| Vectors.RedundantPrefixTwoBytesA | tests/test.rs:51 | the second buffer of the redundant dataset is rejected |
| Vectors.RedundantPrefixTwoBytesB | tests/test.rs:52 | the third buffer of the redundant dataset is rejected |
| Vectors.RedundantPrefixThreeBytesA | tests/test.rs:53 | the fourth buffer of the redundant dataset is rejected |
| Vectors.RedundantPrefixThreeBytesB | tests/test.rs:54 | the fifth buffer of the redundant dataset is rejected |
| Vectors.RedundantPrefixFourBytesA | tests/test.rs:55 | the sixth buffer of the redundant dataset is rejected |
| Vectors.RedundantPrefixFourBytesB | tests/test.rs:56 | the seventh buffer of the redundant dataset is rejected |
| Vectors.RedundantWordOneByte | tests/test.rs:82-93 | `decode3` rejects the first dataset buffer given as first byte and word |
| Vectors.RedundantWordTwoBytesA | tests/test.rs:82-93 | `decode3` rejects the second dataset buffer |
| Vectors.RedundantWordTwoBytesB | tests/test.rs:82-93 | `decode3` rejects the third dataset buffer |
| Vectors.RedundantWordThreeBytesA | tests/test.rs:82-93 | `decode3` rejects the fourth dataset buffer |
| Vectors.RedundantWordThreeBytesB | tests/test.rs:30-45 | `decode3` rejects `0xDD` with a zero word |
| Vectors.RedundantWordFourBytesA | tests/test.rs:82-93 | `decode3` rejects the sixth dataset buffer |
| Vectors.RedundantWordFourBytesB | tests/test.rs:82-93 | `decode3` rejects the seventh dataset buffer |
| Vectors.CheckResultExamples | tests/test1.rs:114-134 | the check accepts 100 at 1 byte, 128 at 2 and `u64::MAX` at 9, and rejects 127 at 2 and `2^56 - 1` at 9 with `LeadingOnes` |
| Vectors.ShiftAmountWraps | src/lib.rs:258 | in a release build the shift amount of length 0 wraps to 57, that of length 11 is masked to 6, and that of length 38 wraps to 3 |
| Vectors.CheckResultLengthZero | src/lib.rs:257-264 | at length 0 a release build compares with `2^57` |
| Vectors.CheckResultLengthEleven | src/lib.rs:257-264 | at length 11 a release build compares with 64 |
| Vectors.CheckResultLengthThirtyEight | src/lib.rs:257-264 | at length 38 a release build compares with 8 |
| Vectors.EmptyIsTruncated | src/lib.rs:1161-1167 | the empty input is `Truncated` |
| Vectors.SignedPositive | src/signed.rs:53-65 | `0x0f0f_f0f0` zigzags to `0x1E1F_E1E0`, encodes to `[F0 3C FC C3 03]` and decodes back |
| Vectors.SignedNegative | src/signed.rs:58-68 | `-0x0f0f_f0f0` zigzags to `0x1E1F_E1DF`, encodes to `[F7 3B FC C3 03]` and decodes back |

## Left out

- `src/io.rs` (`ReadVu64`/`WriteVu64`): extension traits over `std::io` readers and writers. Their only codec logic is reading `decoded_len` bytes and calling `decode_with_first_and_follow`, which is modelled.
- The `xtask` command-line tools: file I/O and printing.
- The `Debug`, `Display` and `std::error::Error` implementations (src/lib.rs:119-124, 410-419): string formatting only.
- The `size_of`/`align_of` layout tests: memory layout is not expressible in the model.
- The `unsafe` `get_unchecked` reads and `unreachable_unchecked` branches, and the duplicate `vu64_debug` branches: one checked version of each is modelled. The verifier proves every index in range and every `unreachable_unchecked` branch dead.
- The pseudo-random fuzz loops of the tests: replaced by lemmas over all inputs.
- The `Copy`/`Clone` derives of `Vu64`: a Dafny datatype is a value.
- `Codec.DecodeWithFirstAndFollowLe`: `u64::from_le` is taken as the identity, so only a little-endian target is modelled.
- `Codec.Decode3Agrees`: `decode3` uses the follow word whole, so its agreement with `decode` is stated for words zero above the follow bytes, as every caller in the crate builds them.
- `Signed.Decoding`: `signed::decode` takes `&mut &[u8]` but never advances the slice, so it is modelled on a byte sequence. The claim near src/lib.rs:220-222 that the slice is advanced is not modelled.
- `Zigzag.Encode`: its contract states the sign bit and the negative case only. The non-negative case is `Zigzag.EncodeNonNegative` and both together are `Zigzag.EncodeValue`, because a function contract covering both cases is too costly for the solver.
- `Zigzag.Decode`: its contract states the sign and the odd case only. The even case is `Zigzag.DecodeEven`, for the same reason.
- `Zigzag.EncodeValue`: the value laws are stated in 64-bit two's-complement arithmetic (`bv64`), not over mathematical integers.
- `Length.EncodedLen`: returns a `nat` rather than a `u8`; every value is in 1..9.
- `Codec.DecodeWithLength`, `Codec.DecodeWithFirstAndFollow` and `Codec.DecodeWithFirstAndFollowLe` require a length in 1..9, the lengths `decoded_len` produces at every call site. For lengths 10..255 the source returns `Truncated` when `decode_with_length` or `decode_with_first_and_follow` is given too few bytes, and otherwise reaches `unreachable_unchecked` (src/lib.rs:315-319, 360-364, 389-393). At length 0 a debug build panics on `length - 1`. A release build wraps it to 255 and reaches the same `unreachable_unchecked`, except that `decode_with_first_and_follow` wraps `length as usize - 1` to `usize::MAX` first and returns `Truncated`.
- `Format.CheckResultWithLength`: modelled as a release build computes it for every `u8` length. `length - 1` wraps at 0, the `u8` product `7 * (length - 1)` wraps from length 38 on, and the shift amount is masked to its low six bits. A debug build instead panics on every length outside 1..10 (on the subtraction, the product or a shift of 64 or more); the model does not capture the panic.
- `Codec.Encode`: the steps of `encode` are split into helper methods (`Store`, `StoreShifted`, `StoreLong`) that write the same array in the same order.

## Findings

| source | as written | input that shows it | evidently intended | confidence | as-written member | corrected member |
|---|---|---|---|---|---|---|
| src/lib.rs:322 | `decode_with_length`, `decode_with_first_and_follow` (line 367) and `decode_with_first_and_follow_le` (line 396) only `debug_assert!` that the value needs `length` bytes. A release build returns `Ok` for a redundant encoding, and the `Error` enum (lines 400-408) has no `RedundantEncode` kind. | `[0x81, 0x00]` decodes to `Ok(1)` | `Err(RedundantEncode)` for every decoder, as tests/test.rs:15,28,44 and tests/test1.rs:75,79 expect | not executed | Format.DecodingAsWritten | Format.Decoding |

`Vectors.RedundantOne` proves that the code as written accepts `[0x81, 0x00]` as 1, while the corrected decoder rejects it. `Format.AsWrittenAcceptsRedundant` shows that the two decoders differ exactly on redundant input. `Format.DecodingCanonical` proves that the corrected decoder accepts exactly the canonical encodings.
