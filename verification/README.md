# A verified model of rust-bitcoin's byte-order, amount and message core

This project models, in Dafny, the small integer and byte-level core of a re-implementation of rust-bitcoin:

- **Byte order** (`src/util/endian.rs`). The loops that build a `u16`/`u32`/`u64` from a byte slice, big- or
  little-endian, with `res |= (byte as T) << shift`, and the loop that writes a `u32` into a 4-byte big-endian array.
  The loops are `method`s over the bit-level operators (`Bits.Or`, `Bits.Shl`, `Bits.Shr`, `Bits.And`, defined on
  naturals with truncation to the type width). Each is proved equal to a positional value (`Endian.BeValue`,
  `Endian.LeValue`, `Endian.BeBytes`), and round trips, bounds and the reversal relation are proved about those.
- **Amounts** (`src/util/amount.rs`). `Amount(u64)` with checked addition and subtraction and the panicking operators.
- **The `SatoshiArithmetic` derive** (`macros/src/lib.rs`). The code generated for `S(u64)` and `S(i64)`: checked
  `+ - * / %` (built on the Rust integer semantics in module `Checked`: wrap-and-flag overflow, and division and
  remainder truncating toward zero), the operators that panic on `None`, the compound assignments as methods of a
  class holding the place they update, bounds and ordering. The macro's accept/reject rule is modelled too.
- **Record encoding and named enums** (`src/internal_macros.rs`).
  - `impl_consensus_encoding!` is modelled generically over a sequence of field codecs.
  - Encoding writes into a `Sink` and decoding advances a `Source`; both are classes.
  - The `user_enum!` Display/FromStr pair is a variant/text table.
- **Network messages** (`src/network/message_network.rs`, `src/network/constants.rs`). `PROTOCOL_VERSION`, the
  `Network` names, `VersionMessage::new` and its wire order, and the one-byte `RejectReason` codec.

Modules: `Wrappers` (Option/Result), `Integers` (widths and powers of two), `Bits`, `Endian`, `Checked`, `Amount`,
`SatoshiArithmetic`, `Errors`, `RecordCodec` and `UserEnum` (both in `internal_macros.dfy`), `Constants`,
`MessageNetwork`.

`src/consensus/encode.rs` holds only a doc comment and no code, so it is not part of this model.

## Model

| member | source | states |
|---|---|---|
| Bits.Shl | src/util/endian.rs:8 | `x << n` on a `width`-bit integer stays below 2^width |
| Bits.Or | src/util/endian.rs:8 | `a \| b` bit by bit; the result is at least each operand |
| Bits.And | src/util/endian.rs:34 | `a & b` bit by bit; the result is at most each operand |
| Bits.Shr | src/util/endian.rs:34 | `x >> n` is the quotient of x by 2^n (bounded on both sides) |
| Bits.OrDisjoint | src/util/endian.rs:21 | OR-ing a value below 2^k with a multiple of 2^k is their sum (the bits never overlap) |
| Bits.OrCommutes | src/util/endian.rs:8 | `a \| b == b \| a` |
| Bits.OrBound | src/util/endian.rs:8 | the OR of two values below 2^k is below 2^k |
| Bits.AndLowMask | src/util/endian.rs:34 | `x & (2^k - 1)` is `x mod 2^k`, so `& 0xff` keeps the low byte |
| Bits.ShlExact | src/util/endian.rs:8 | a shift whose result fits the width loses nothing |
| Bits.ShlByteExact | src/util/endian.rs:21 | a byte shifted by at most width-8 bits is never truncated |
| Endian.BeValueBound | src/util/endian.rs:6-10 | the big-endian value of n bytes is below 2^(8n), so the loop result fits its type |
| Endian.LeValueBound | src/util/endian.rs:19-23 | the little-endian value of n bytes is below 2^(8n) |
| Endian.LeValueSnoc | src/util/endian.rs:20-22 | the byte at position i contributes byte·256^i to the little-endian value |
| Endian.BeValueSnoc | src/util/endian.rs:8 | a further byte multiplies the big-endian value by 256 and adds the byte |
| Endian.BeStep | src/util/endian.rs:8 | one big-endian iteration ORs the byte into exactly the bits below the earlier bytes |
| Endian.BeBytesAt | src/util/endian.rs:32-35 | byte i of the big-endian array is `(v >> 8(n-1-i)) & 0xff` |
| Endian.BeValueOfBytes | src/util/endian.rs:27-39 | reading back the big-endian bytes of v < 2^(8n) gives v |
| Endian.BeBytesOfValue | src/util/endian.rs:1-13 | writing the big-endian value of a slice gives the slice back |
| Endian.LeIsReversedBe | src/util/endian.rs:14-26 | the little-endian value of s is the big-endian value of s reversed |
| Endian.SliceToBe | src/util/endian.rs:4-11 | the OR-shift loop computes Σ s[i]·256^(n-1-i), below 2^(8n) |
| Endian.SliceToLe | src/util/endian.rs:17-24 | the OR-shift loop computes Σ s[i]·256^i, below 2^(8n) |
| Endian.ToArrayBe | src/util/endian.rs:30-37 | the array is filled with the big-endian bytes of the value |
| Endian.SliceToU32Be | src/util/endian.rs:41 | requires a 4-byte slice; yields its big-endian value |
| Endian.U32ToArrayBe | src/util/endian.rs:42 | a new 4-byte array holding the big-endian bytes |
| Endian.SliceToU16Le | src/util/endian.rs:43 | requires a 2-byte slice; yields its little-endian value |
| Endian.SliceToU32Le | src/util/endian.rs:44 | requires a 4-byte slice; yields its little-endian value |
| Endian.SliceToU64Le | src/util/endian.rs:45 | requires an 8-byte slice; yields its little-endian value |
| Endian.U32BeRoundTrip | src/util/endian.rs:41-42 | `slice_to_u32_be(u32_to_array_be(v)) == v` and `u32_to_array_be(slice_to_u32_be(s)) == s` |
| Endian.EndiannessVectors | src/util/endian.rs:53-60 | the five test vectors (`deadbeef`, `dead`, `1badcafedeadbeef`) |
| Checked.Wrap | macros/src/lib.rs:89-91 | std's `overflowing_*` wrap behind `checked_*` (never visible through it): the wrapped result is in range, congruent mod 2^64, and unchanged when no overflow |
| Checked.Overflowing | macros/src/lib.rs:89-101 | std's `overflowing_*` behind `checked_*`: the overflow flag is set exactly when the exact result is out of range |
| Checked.CheckedAdd | macros/src/lib.rs:89-91 | `Some(a+b)` exactly when a+b is in the inner type's range |
| Checked.CheckedSub | macros/src/lib.rs:94-96 | `Some(a-b)` exactly when a-b is in range |
| Checked.CheckedMul | macros/src/lib.rs:99-101 | `Some(a*b)` exactly when a*b is in range |
| Checked.TruncDiv | macros/src/lib.rs:102-107 | the quotient rounds toward zero: abs(q)·abs(b) ≤ abs(a) < (abs(q)+1)·abs(b), sign by the operands' signs |
| Checked.TruncRem | macros/src/lib.rs:108-112 | the remainder is smaller than the divisor and takes the dividend's sign |
| Checked.RemIsSignedMod | macros/src/lib.rs:108-112 | a − b·(a/b) is ±(abs(a) mod abs(b)) with the sign of a |
| Checked.CheckedDiv | macros/src/lib.rs:105-107 | `None` exactly when rhs = 0 or (i64) MIN / −1; otherwise the truncated quotient |
| Checked.CheckedRem | macros/src/lib.rs:110-112 | `None` under the same conditions; otherwise a − rhs·(a/rhs), in range |
| Checked.QuotientInRange | macros/src/lib.rs:102-112 | the quotient overflows only for i64 MIN / −1, and then so does the remainder |
| Checked.QuotientMagnitude | macros/src/lib.rs:102-107 | the quotient is no larger in magnitude than the dividend (half of it for divisors of magnitude ≥ 2) |
| Checked.Cmp | macros/src/lib.rs:232-236 | `Less`/`Equal`/`Greater` exactly as a < b, a = b, a > b |
| Checked.SubUndoesAdd | macros/src/lib.rs:89-96 | subtracting what was added gives the starting value |
| Checked.DivRemRecompose | macros/src/lib.rs:102-112 | when division succeeds, so does the remainder, and q·b + r = a |
| Amount.FromSat | src/util/amount.rs:14-16 | the amount holds exactly the given satoshis |
| Amount.AsSat | src/util/amount.rs:19-21 | the satoshi count, which determines the amount (`Amount(as_sat(a)) == a`) |
| Amount.FromSatAsSat | src/util/amount.rs:14-21 | `as_sat(from_sat(n)) == n` and `from_sat(as_sat(a)) == a` |
| Amount.CheckedAdd | src/util/amount.rs:25-27 | `Some(a+b)` exactly when a+b ≤ 2^64−1 |
| Amount.CheckedSub | src/util/amount.rs:31-33 | `Some(a−b)` exactly when b ≤ a |
| Amount.Add | src/util/amount.rs:41-43 | requires no overflow (otherwise it panics); the sum of the satoshis |
| Amount.Sub | src/util/amount.rs:49-51 | requires b ≤ a (otherwise it panics); the difference |
| Amount.Eq | src/util/amount.rs:55-58 | amounts are equal exactly when their satoshi counts are |
| Amount.SubUndoesAdd | src/util/amount.rs:41-51 | `(a + b) - b == a` whenever the addition does not panic |
| Amount.AddSubtractVectors | src/util/amount.rs:81-82 | `sat(15)+sat(15) == sat(30)` and `sat(15)-sat(15) == sat(0)` |
| SatoshiArithmetic.Lift | macros/src/lib.rs:90 | `.map(S)`: `Some` exactly when the inner result is `Some`, wrapping the same integer |
| SatoshiArithmetic.FromSat | macros/src/lib.rs:80-82 | the value wraps the given integer of the inner type |
| SatoshiArithmetic.AsSat | macros/src/lib.rs:84-86 | the inner integer: in range for a valid value, and it determines the value of its kind |
| SatoshiArithmetic.CheckedAdd | macros/src/lib.rs:89-91 | `Some(a+b)` exactly when the sum fits the inner type |
| SatoshiArithmetic.CheckedSub | macros/src/lib.rs:94-96 | `Some(a−b)` exactly when the difference fits |
| SatoshiArithmetic.CheckedMul | macros/src/lib.rs:99-101 | `Some(a·rhs)` exactly when the product fits |
| SatoshiArithmetic.CheckedDiv | macros/src/lib.rs:105-107 | `None` exactly for rhs = 0 or i64 MIN / −1; otherwise the quotient truncated toward zero |
| SatoshiArithmetic.CheckedRem | macros/src/lib.rs:110-112 | `None` under the same conditions; otherwise the remainder, smaller than rhs, with the sign of self, and a = q·rhs + r |
| SatoshiArithmetic.MaxValue | macros/src/lib.rs:114-116 | no value of the inner type exceeds it |
| SatoshiArithmetic.MinValue | macros/src/lib.rs:119-121 | no value of the inner type is below it |
| SatoshiArithmetic.Add | macros/src/lib.rs:146-152 | requires the checked sum to exist (otherwise it panics); the sum |
| SatoshiArithmetic.Sub | macros/src/lib.rs:178-184 | requires the checked difference to exist; the difference |
| SatoshiArithmetic.Mul | macros/src/lib.rs:155-161 | requires the checked product to exist; the product |
| SatoshiArithmetic.Div | macros/src/lib.rs:194-200 | requires the checked quotient to exist; the quotient truncated toward zero (magnitude bracket, sign rule, equal to `TruncDiv`) |
| SatoshiArithmetic.Rem | macros/src/lib.rs:210-216 | requires the checked remainder to exist; smaller than rhs, sign of self, equal to `TruncRem` |
| SatoshiArithmetic.Cmp | macros/src/lib.rs:232-236 | orders values as their inner integers |
| SatoshiArithmetic.PartialCmp | macros/src/lib.rs:226-230 | always `Some(cmp(a, b))`, agreeing with the inner order |
| SatoshiArithmetic.CmpIsTotalOrder | macros/src/lib.rs:225-236 | antisymmetric, transitive, `Equal` only for equal values, and `partial_cmp == Some(cmp)` |
| SatoshiArithmetic.WithinBounds | macros/src/lib.rs:113-121 | every value lies between `min_value()` and `max_value()` |
| SatoshiArithmetic.DivRemRecompose | macros/src/lib.rs:102-112 | `(a / rhs)·rhs + a % rhs == a` when the division does not panic |
| SatoshiArithmetic.Place.AddAssign | macros/src/lib.rs:171-175 | `x += r` leaves x equal to old x + r |
| SatoshiArithmetic.Place.SubAssign | macros/src/lib.rs:187-191 | `x -= r` leaves x equal to old x − r |
| SatoshiArithmetic.Place.MulAssign | macros/src/lib.rs:164-168 | `x *= r` leaves x equal to old x · r |
| SatoshiArithmetic.Place.DivAssign | macros/src/lib.rs:203-207 | `x /= r` leaves x equal to old x / r |
| SatoshiArithmetic.Place.RemAssign | macros/src/lib.rs:219-223 | `x %= r` leaves x equal to old x % r |
| SatoshiArithmetic.FormulateAsWritten | macros/src/lib.rs:17-73 | code is generated exactly for tuple structs whose first field is `u64`/`i64`; other path types make the macro panic |
| SatoshiArithmetic.Formulate | macros/src/lib.rs:17-73 | the same acceptance, never panicking, with the inner type taken from the field |
| SatoshiArithmetic.AssertPreemptsCompileError | macros/src/lib.rs:65-73 | "expected u64 or i64" is never produced as written; `S(u32)` panics instead |
| SatoshiArithmetic.AmountShapesDerive | macros/src/lib.rs:19-73 | `S(u64)` and `S(i64)` are accepted with their inner type; a struct with named fields is rejected |
| RecordCodec.DecodeFields | src/internal_macros.rs:17-26 | a decode never reads past its input and yields one value per field |
| RecordCodec.EncodeFields | src/internal_macros.rs:11-13 | encoding succeeds exactly when every field's encoder succeeds |
| RecordCodec.EncodeStopsAtFailure | src/internal_macros.rs:12 | the first failing field's error is the record's error; no later field is written |
| RecordCodec.EncodeAppendsField | src/internal_macros.rs:11-13 | the record's bytes and count are those of its first fields plus those of the last |
| RecordCodec.EncodeCountIsLength | src/internal_macros.rs:11-13 | when each field's count is its byte length, the record's count is its byte length |
| RecordCodec.DecodeFailsAfterPrefix | src/internal_macros.rs:23 | decoded first fields followed by a failing field: the record fails with that field's error after the bytes read |
| RecordCodec.DecodeFailedPrefix | src/internal_macros.rs:23 | a failed field ends the decode with its error |
| RecordCodec.DecodeFailurePersists | src/internal_macros.rs:22-24 | a record whose first fields failed fails the same way, whatever follows |
| RecordCodec.DecodeStopsAtFailure | src/internal_macros.rs:22-24 | the first failing field's error is the record's error, after the bytes read so far |
| RecordCodec.DecodeAfterPrefix | src/internal_macros.rs:22-24 | decoded first fields plus a decoded next field are a decoded record |
| RecordCodec.RecordRoundTrip | src/internal_macros.rs:3-28 | if every field codec round-trips, decoding an encoded record gives the record and its length back |
| RecordCodec.DecodedFieldsSatisfy | src/internal_macros.rs:22-24 | a property every field decoder guarantees for its position holds of the decoded record |
| RecordCodec.ConsensusEncode | src/internal_macros.rs:7-14 | the sink receives the encoded fields in order; the result is the summed count, or the first error after the bytes written before it |
| RecordCodec.DecodeField | src/internal_macros.rs:23 | one field is decoded from the unread bytes and the source advances past exactly the bytes it read |
| RecordCodec.ConsensusDecode | src/internal_macros.rs:19-25 | the result is the record decode's fields or its first field error, and the source advances by exactly the bytes read |
| UserEnum.ToText | src/internal_macros.rs:53-67 | Display/Debug print the text on the variant's own line |
| UserEnum.Lookup | src/internal_macros.rs:72-74 | finds a variant exactly when the text is on some line, and that variant's line has that text |
| UserEnum.FromStr | src/internal_macros.rs:69-80 | `Ok` exactly for the texts of the table; otherwise `InvalidInput` naming the string |
| UserEnum.UnknownText | src/internal_macros.rs:75-78 | an `InvalidInput` error whose message is "Unknown network (type ", then the string, then ")" |
| UserEnum.FromStrOfText | src/internal_macros.rs:53-74 | with distinct texts, `from_str(to_string(v)) == v` |
| UserEnum.TextOfFromStr | src/internal_macros.rs:53-74 | with one line per variant, `to_string(from_str(s)) == s` whenever parsing succeeds |
| Constants.TableIsBijective | src/network/constants.rs:36-43 | three variants, three distinct texts, each on one line |
| Constants.Name | src/network/constants.rs:33-44 | parsing a network's name gives the network |
| Constants.FromStr | src/network/constants.rs:33-44 | accepts exactly "bitcoin", "testnet", "regtest", inverse to `Name`; otherwise an `InvalidInput` error |
| Constants.NameValues | src/network/constants.rs:38-42 | the names are "bitcoin", "testnet" and "regtest" |
| Constants.FromStrOfName | src/network/constants.rs:33-44 | `from_str(to_string(n)) == n` for every network |
| Constants.FromStrIsCaseSensitive | src/network/constants.rs:33-44 | "Bitcoin", "TESTNET" and " regtest" are rejected |
| Constants.Index | src/network/constants.rs:35-42 | a network's position is the index of its line |
| Constants.Cmp | src/network/constants.rs:35 | the derived order compares declaration positions |
| Constants.CmpReverses | src/network/constants.rs:35 | swapping the operands reverses the order |
| Constants.DeclarationOrder | src/network/constants.rs:35-42 | Bitcoin < Testnet < Regtest, transitively |
| MessageNetwork.NewVersionMessage | src/network/message_network.rs:46-66 | version 70001, relay false, the seven arguments copied unchanged |
| MessageNetwork.Fields | src/network/message_network.rs:69-80 | the fields in wire order, one of each name |
| MessageNetwork.FromFields | src/network/message_network.rs:69-80 | assembling fields in wire order is inverse to splitting |
| MessageNetwork.FromFieldsOfFields | src/network/message_network.rs:69-80 | splitting then assembling gives the message back |
| MessageNetwork.EncodeVersionMessage | src/network/message_network.rs:69-80 | encoding the message succeeds exactly when each of its nine fields, in wire order, encodes |
| MessageNetwork.DecodeVersionMessage | src/network/message_network.rs:69-80 | succeeds exactly when the record decode does, with the decoded fields, else with its error |
| MessageNetwork.VersionMessageRoundTrip | src/network/message_network.rs:69-80 | with round-tripping field codecs, decoding an encoded `version` message gives it back |
| MessageNetwork.Code | src/network/message_network.rs:84-101 | each reason's discriminant, 0x01 to 0x43 (distinct by CodeInjective) |
| MessageNetwork.CodeInjective | src/network/message_network.rs:84-101 | distinct reasons have distinct codes |
| MessageNetwork.EncodeRejectReason | src/network/message_network.rs:104-107 | writes exactly one byte, the reason's code, and returns 1 |
| MessageNetwork.DecodeRejectReason | src/network/message_network.rs:111-123 | empty input: end of input; a known code: its reason, reading one byte; any other byte: "unknown reject code" |
| MessageNetwork.RejectReasonRoundTrip | src/network/message_network.rs:103-124 | decoding an encoded reason gives it back, whatever follows |
| MessageNetwork.RejectReasonCodecFits | src/network/message_network.rs:103-124 | the reason codec round-trips and never reads past its input, so it may be a record field |

## Left out

- Floating point and formatting: `to_float_in`, `to_string_in`/`fmt_value_in` and the Debug impls (macros/src/lib.rs:123-143, src/util/amount.rs:61-66). `Denomination` and `fmt_value_in` are not part of this model.
- `f.pad` in the `user_enum!` Display/Debug: width and fill handling belong to the formatter; the model yields the bare text.
- Proc-macro mechanics (`syn` parsing, `quote!`, `TokenStream`). Only the accept/reject rule of `impl_formulate` and the behaviour of the generated code are modelled.
- The serde impls of `user_enum!` (`unimplemented!()`) and `display_from_debug!`, which only forwards Display to Debug.
- `src/network/mod.rs` (socket error wrapper and its strings), the `Reject` struct (empty), `CommandString`, and the declaration-only modules.
- `src/consensus/encode.rs` holds no code; the `Encodable`/`Decodable` traits and `ReadExt::read_u8` are not part of this model.
- Errors.END_OF_INPUT: `read_u8` is not in the source, so reading from an empty input is assumed to report what std's `read_exact` does (`UnexpectedEof`, "failed to fill whole buffer").
- `encode::Error` is not part of this model beyond the two variants the modelled code builds: `Io` and `ParseFailed`.
- `Address`, `ServiceFlags` and `Network::magic()` are not part of this model. The first two are abstract types. The `VersionMessage` field codecs are parameters.
- RecordCodec.ConsensusEncode: `len +=` on `usize` is modelled on unbounded naturals, so its overflow is not modelled.
- RecordCodec.ConsensusEncode: the sink is an in-memory byte sequence. A field encoder's failure and the bytes it wrote first are part of the field codec; the sink itself never fails.
- MessageNetwork.EncodeRejectReason: `write_all` into a failing writer is not modelled; the encoder always writes its byte.
- MessageNetwork.TypedCodecs: Rust's typing (field i is read as the type of field i) is a precondition on the codecs.
- `Checked` models only the `u64` and `i64` behaviour the derive and `Amount` use. The 16- and 32-bit endian results are bounded by the proved value bound, not by wrap-around.

## Findings

| source | as written | input that shows it | evidently intended | confidence | as-written member | corrected member |
|---|---|---|---|---|---|---|
| macros/src/lib.rs:65-73 | `assert!` that the field type is `i64`/`u64` comes before the `if` returning the compile error "expected u64 or i64", so that branch is dead and the derive panics instead | `#[derive(SatoshiArithmetic)] struct S(u32);` | reject other integer types with the spanned compile error "expected u64 or i64" | high that the branch is unreachable; not executed | SatoshiArithmetic.FormulateAsWritten, SatoshiArithmetic.AssertPreemptsCompileError | SatoshiArithmetic.Formulate |
