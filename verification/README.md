# Rescue adapter and decoder layout, in Dafny

A model of the core of `src/lib.rs` of the `rescue` crate, a WebAssembly-facing wrapper
around the Rescue hash. It has two independent parts.

* **The `rescue` entry point.** A string such as `"1,2,3,4"` is split on commas, each token
  is parsed as a Rust `u128`, the call insists on exactly four values, packs them into bytes,
  hands them to the Rescue permutation and returns its 32-byte digest.
  `text.dfy` models `str::split(',')`, `decimal.dfy` models `u128::from_str`, and `rescue.dfy`
  models the pipeline. The byte packing (`utils::as_bytes`) and the permutation
  (`math::rescue::rescue`) are not part of this model. They are parameters of `Rescue`, so
  every property holds for every packing and every permutation.
  A panic of the source becomes an `Err` value naming its cause. The causes are the `unwrap`
  of a failing token (with the token's index and Rust's `IntErrorKind`) and the two
  `debug_assert!`s (wrong value count, wrong digest length).
* **The decoder register layout.** `layout.dfy` declares the crate's constants: the global
  bounds, the hash and sponge sizes, and the bit ranges of the decoder register. The
  register holds an operation counter, a sponge field and the control-flow, load and
  hash-domain opcode fields. The lemmas prove what the layout diagram depicts: the fields are
  contiguous and disjoint and fill bits 0 to 14. Each opcode range is as wide as its bit
  count, and 2^bits is its operation count.

`results.dfy` holds the `Result` and `Option` types.

## Model

| member | source | states |
|---|---|---|
| `Text.Split` | src/lib.rs:37 | a string with k commas splits into k + 1 tokens, and no token contains a comma |
| `Text.JoinSplit` | src/lib.rs:37 | gluing the tokens back with commas restores the string, so the split drops and reorders nothing |
| `Text.SplitJoin` | src/lib.rs:37 | comma-free tokens joined with commas split back into exactly those tokens |
| `Text.SplitConcat` | src/lib.rs:37 | splitting at a comma gives the tokens on its left followed by those on its right; empty tokens are kept |
| `Decimal.Accumulate` | src/lib.rs:40 | the digit loop succeeds iff every character is a digit and the value stays below 2^128, and then yields that decimal value; otherwise it fails with InvalidDigit or PosOverflow, and only with PosOverflow when all characters are digits |
| `Decimal.ParseU128` | src/lib.rs:40 | `parse::<u128>` succeeds iff the token is a u128 literal (digits, one optional leading '+', value below 2^128) and yields its decimal value; "" and only "" gives Empty; an all-digit token that is too large gives PosOverflow |
| `Decimal.ParseToDecimal` | src/lib.rs:40 | every u128 value's canonical decimal text parses back to that value |
| `Decimal.ParsePlusSign` | src/lib.rs:40 | one leading '+' before a token not starting with '+' does not change the parse |
| `Decimal.ParseRejectsMinus` | src/lib.rs:40 | a token starting with '-' never parses as a u128 |
| `Decimal.ParseOverflow` | src/lib.rs:40 | the decimal text of any value of at least 2^128 fails with PosOverflow |
| `Decimal.AccumulateErrorKind` | src/lib.rs:40 | when the digit loop fails, the error is InvalidDigit exactly when a non-digit is met while the digits before it still fit in 128 bits, i.e. the first failing step decides the kind |
| `Decimal.ParseErrorKind` | src/lib.rs:40 | a non-empty token that fails to parse reports InvalidDigit iff a non-digit comes before any overflow, and PosOverflow otherwise |
| `Decimal.ParseOverflowBeforeJunk` | src/lib.rs:40 | the decimal text of a value of at least 2^128 followed by any characters fails with PosOverflow, since the overflow is met before the junk |
| `Decimal.ShortDigitStringsParse` | src/lib.rs:40 | any non-empty string of at most 38 digits parses to its decimal value, because 10^38 < 2^128 |
| `RescueAdapter.ParseAll` | src/lib.rs:38-41 | mapping a token parser over a token list and collecting succeeds iff every token parses; the result then has the tokens' length and order, element i being token i's value; on failure it names the first failing token and its error kind |
| `RescueAdapter.ParseValues` | src/lib.rs:35-42 | with `parse::<u128>` as the token parser, the empty string gives no values; otherwise success gives one value per token (commas + 1) in order, each the decimal value of its token, and failure happens iff some token is not a u128 literal |
| `RescueAdapter.FourValuesHaveFourTokens` | src/lib.rs:35-47 | four parsed values come from a non-empty string with exactly three commas whose four tokens are all u128 literals |
| `RescueAdapter.FourTokensGiveFourValues` | src/lib.rs:35-47 | a non-empty string of four u128 literals separated by three commas parses to four values |
| `RescueAdapter.Rescue` | src/lib.rs:34-55 | the call succeeds iff the input is four valid u128 tokens and the permutation's output has 32 bytes; the result is then exactly the permutation of the byte packing of the parsed values |
| `RescueAdapter.ParseRender` | src/lib.rs:35-42 | values written in canonical decimal and joined with commas parse back to the same values, the empty list included |
| `RescueAdapter.RescueEmpty` | src/lib.rs:35-47 | the empty string yields zero values and fails the four-value check with count 0 |
| `RescueAdapter.ArityCheckedBeforeHash` | src/lib.rs:43-48 | a successful parse with a count other than four fails with that count, whatever the permutation, so the hash is never consulted |
| `RescueAdapter.ParseFailureBeforeHash` | src/lib.rs:40-48 | a failing token aborts the call with its parse failure, before any arity check or hashing |
| `RescueAdapter.DigestLengthChecked` | src/lib.rs:48-53 | four parsed values whose permuted packing is not 32 bytes long fail with that length |
| `RescueAdapter.RescueRendered` | src/lib.rs:34-55 | four values written as decimal text hash to the permutation of their byte packing when that is 32 bytes long |
| `RescueAdapter.TrailingCommaFails` | src/lib.rs:37-40 | a trailing comma leaves an empty last token, so the call aborts |
| `RescueAdapter.DoubleCommaFails` | src/lib.rs:37-40 | two adjacent commas leave an empty token, so the call aborts |
| `RescueAdapter.ExampleOneToFour` | src/lib.rs:35-41 | "1,2,3,4" parses to the values 1, 2, 3, 4 |
| `DecoderLayout.FieldAt` | src/lib.rs:107-111 | every bit below 15 belongs to exactly one field, whose range contains it; no field owns a bit from 15 up |
| `DecoderLayout.FieldsContiguous` | src/lib.rs:107-111 | the counter bit is followed by the sponge range, each range ends where the next one starts, and the last ends at bit 15 |
| `DecoderLayout.FieldsDisjoint` | src/lib.rs:107-111 | no bit lies in two different fields |
| `DecoderLayout.WidthsFillLayout` | src/lib.rs:107-111 | the field widths (1 + 4 + 3 + 5 + 2) add up to the 15 bits the layout uses |
| `DecoderLayout.OpcodeWidths` | src/lib.rs:99-111 | the control-flow, load and hash-domain ranges are 3, 5 and 2 bits wide, matching their bit counts, and 2^bits is 8, 32 and 4, their operation counts |
| `DecoderLayout.OpcodeBitsMinimal` | src/lib.rs:99-105 | each opcode bit count is the least number of bits able to encode its operations, i.e. ceil(log2(count)) |
| `DecoderLayout.OpcodeCodesAllValid` | src/lib.rs:99-111 | a code fits in an opcode field iff it is below the operation count, so no code in the field is invalid |
| `DecoderLayout.HashSizing` | src/lib.rs:80-88 | the hash state is rate + capacity = 6 elements, the sponge is as wide as the rate (4), and the 2-element digest fits in the state |
| `DecoderLayout.OutputsMatchInputs` | src/lib.rs:120-121 | the output bound equals the public-input bound, 8 |
| `DecoderLayout.DepthBoundsOrdered` | src/lib.rs:63-122 | the minimum stack, context and loop depths do not exceed their maxima |

## Left out

- `math::rescue::rescue` (the permutation) and `utils::as_bytes` (the byte packing of the u128 values) are not part of this model. They are function parameters of `Rescue`. The packing's byte order is therefore not fixed here.
- The `wasm_bindgen` export, `console_error_panic_hook` and `wasm_bindgen_test` imports are host glue with no logic.
- The two `debug_assert!`s are modelled as a debug build runs them, as error results. A release build compiles them out. It then hashes the packing of however many values were parsed, and returns the digest whatever its length.
- A panic becomes an `Err` value. The model does not capture unwinding or the panic message text. The message of the first assertion says "bytes" where it counts values.
- `values.len()` counts UTF-8 bytes while the model's strings are sequences of characters. Both are zero exactly for the empty string, and a non-ASCII character is an invalid digit either way.
- `to_vec()` copies the digest into a fresh vector. The model returns the same byte sequence, which is what the copy guarantees.
- The context and loop-depth fields drawn above bit 15 in the layout diagram have no constants in the source, so the model gives them no range.
- `MIN_TRACE_LENGTH`, `MAX_REGISTER_COUNT`, `MIN_EXTENSION_FACTOR`, `BASE_CYCLE_LENGTH`, `PUSH_OP_ALIGNMENT`, `HASH_NUM_ROUNDS`, `HACC_NUM_ROUNDS` and `PROGRAM_DIGEST_SIZE` are declared only. Nothing in the source relates them to anything.
- Constants are `usize` in the source and `nat` here. All of them are small, so no width limit matters.
- `src/lib.rs` has no entry point besides `rescue` and no register decoder, so the model has none.
