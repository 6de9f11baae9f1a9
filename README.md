# numcoder codec in Dafny

numcoder turns a list of bounded digits into one arbitrary-precision integer
and back. The limit is a power of two `2^length`. `encode` walks the list from
its last digit to its first. For each digit it shifts the accumulator left by
`length` bits and adds the digit. So the first-listed digit ends up least
significant. `decode` keeps taking `number % limit` and shifting `number` right
by `length` until it is 0. `get_length` accepts a limit only when it is a power
of two above one, and returns its logarithm. `parse_numbers` reads the
comma-separated list of digits. The text modes run the same codec with the
limit fixed at 256 and the width at 8, one digit per byte.

Modules:

- `Wrappers`: `Option` and `Result`, standing for Rust's types of the same name.
- `Radix`: `Pow2` and `GetLength` (`get_length`), with its `while` loop.
- `Codec`:
  - the specification functions `Value` (Horner form), `PositionalSum` (closed form), `Digits` and `TrimZeros`;
  - the loop methods `EncodeBelow`, `Encode`, `EncodeAsWritten` and `Decode`;
  - the round-trip lemmas, and two client methods that run the round trips through the methods.
- `Parse`: `parse_numbers` as the loop method `ParseNumbers`. The library calls it makes are pure functions:
  - `str::replace(char::is_whitespace, "")` is `RemoveWhitespace`;
  - `str::split(",")` is `Split`;
  - `u32::from_str` is `ParseU32`.
- `TextMode`: `encodestr` and `decodestr` at 256/8.

BigUint is `nat`. `x << length` is `x * Pow2(length)` and `x >> length` is
`x / Pow2(length)`. A Rust `u32` is the subset type `Codec.u32` and a byte is
`TextMode.u8`. The casts the source performs are written out: `limit as u32` is
`CastU32` and `n as u8` is `CastU8`.

The usage text of the program mentions a `"verbose"` argument (src/main.rs:53).
The code implements no trace, so the model has none. When a digit is out of
range, `encode` returns `None` without saying which digit it was, and so does
the model.

## Model

| member | source | states |
|---|---|---|
| Radix.GetLength | src/main.rs:141-160 | fails for every limit <= 1; succeeds with `len` exactly when limit == 2^len with len >= 1 (Ok gives that len, Err means no power 2^k with k >= 1 equals the limit) |
| Radix.OddFactorNotPow2 | src/main.rs:147-150 | a value m * 2^j with m odd and > 1 is no power of two, which is why the `limit % 2 != 0` refusal is right |
| Radix.Pow2Injective | src/main.rs:141-160 | a limit has one logarithm, so the width `get_length` returns is determined by the limit alone |
| Radix.GetLengthExamples | src/main.rs:141-160 | 6 and 12 (two set bits) are refused; 2 gives 1 and 256 gives 8 |
| Codec.CastU32 | src/main.rs:170 | `limit as u32` gives a u32 that differs from the limit by a multiple of 2^32, and is the limit itself when it is below 2^32 |
| Codec.EncodeBelow | src/main.rs:166-181 | the reverse loop with shift-and-add: None exactly when some digit is at or above the bound, otherwise Some of the sum of ds[i] * (2^length)^i |
| Codec.Encode | src/main.rs:162-182 | encode with the digit test against the limit itself: None iff some digit >= limit, else the positional sum with the first digit least significant (empty list gives 0) |
| Codec.EncodeAsWritten | src/main.rs:170 | encode as written: the digit test is against `limit as u32`, so None iff some digit >= limit mod 2^32 |
| Codec.Decode | src/main.rs:183-196 | the digits produced are Digits(number); 0 gives []; every digit < limit; for limit == 2^length they pack back to the number and the last digit is nonzero |
| Codec.Digits | src/main.rs:188-193 | the unpacked list is empty iff the number is 0, every digit is below the limit, and for limit == 2^length the most significant digit is nonzero |
| Codec.DigitsStep | src/main.rs:189-192 | one decode step: the low digit `n % limit` first, then the digits of `n >> length`, which is smaller than n (termination for length >= 1) |
| Codec.ValueIsPositionalSum | src/main.rs:166-181 | the shift-and-add accumulator over the reversed list equals the closed form sum of ds[i] * base^i |
| Codec.PowerOfPow2 | src/main.rs:177 | i shifts by `length` bits multiply by 2^(length*i), so the weight of digit i is 2^(length*i) |
| Codec.ValueBound | src/main.rs:162-182 | digits below the base give a value below base to the power of the digit count: at most (digit count * length) bits |
| Codec.ValueZero | src/main.rs:166-181 | the encoding is 0 exactly when every digit is 0 |
| Codec.DigitsOfValue | src/main.rs:162-196 | decode(encode(ds)) is ds without its trailing zero digits, when limit == 2^length and all digits < limit |
| Codec.ValueOfDigits | src/main.rs:162-196 | the digits of decode(v) pack back to v, for every v, when limit == 2^length |
| Codec.TrimZerosShape | src/main.rs:188 | what decode drops: the trimmed list is a prefix of ds, only zeros follow it, and its last digit is nonzero |
| Codec.TrimZerosIdentity | src/main.rs:188 | a list round-trips exactly iff it is empty or ends in a nonzero digit |
| Codec.DecodeAfterEncode | src/main.rs:162-196 | running Encode then Decode at 2^length on digits below the limit yields TrimZeros(ds) |
| Codec.EncodeAfterDecode | src/main.rs:162-196 | running Decode then Encode at 2^length (length <= 32, so the digits fit u32) yields Some(v) for every v |
| Codec.MultiDigitExample | src/main.rs:162-196 | [1, 2, 3] at 16/4 packs to 801 and 801 unpacks to [1, 2, 3]; 0 unpacks to [] |
| Codec.TruncatedLimitIsZero | src/main.rs:170 | every limit 2^k with k >= 32 becomes 0 under `as u32` |
| Codec.AsWrittenRefusesValidDigits | src/main.rs:170 | for a limit 2^k with k >= 32 every u32 digit is below the limit, yet the as-written test refuses every non-empty list |
| Codec.TruncationCounterexample | src/main.rs:170 | encode [0] with limit 2^32: None as written, Some(0) as intended |
| Parse.ParseNumbers | src/main.rs:125-140 | Some exactly when every token parses as a u32; then one number per token in order, so (commas in the text + 1) numbers |
| Parse.RemoveWhitespace | src/main.rs:126 | the result holds no whitespace and is no longer than the text |
| Parse.RemoveWhitespaceKeeps | src/main.rs:126 | a character is in the result exactly when it is in the text and is not whitespace |
| Parse.RemoveWhitespaceIdempotent | src/main.rs:126 | removing whitespace twice is removing it once |
| Parse.RemoveWhitespaceAppend | src/main.rs:126 | whitespace removal works piece by piece over a concatenation |
| Parse.CountRemoveWhitespace | src/main.rs:126 | whitespace removal keeps every comma |
| Parse.StripBracketsWrapped | src/main.rs:128-133 | a text "[" + x + "]" loses exactly its outer brackets, whatever x holds |
| Parse.StripBracketsUnwrapped | src/main.rs:128-133 | a text that neither starts with `[` nor ends with `]` is left alone |
| Parse.StripBrackets | src/main.rs:128-133 | at most one character goes from each end: the result is the text, or it without its first, its last, or both, so it is at most 2 shorter |
| Parse.CountStripBrackets | src/main.rs:128-133 | stripping brackets keeps every comma |
| Parse.Split | src/main.rs:136 | splitting gives (number of separators + 1) pieces, none holding the separator |
| Parse.JoinSplit | src/main.rs:136 | joining the pieces with the separator gives the text back |
| Parse.SplitJoin | src/main.rs:136 | pieces without the separator, joined, split back into the same pieces |
| Parse.Tokens | src/main.rs:126-136 | the tokens read number (commas in the original text + 1) |
| Parse.TokensOfEmptyList | src/main.rs:126-136 | "" and "[]" give one empty token, so `parse_numbers` refuses both |
| Parse.TokensStripOnce | src/main.rs:128-133 | only one bracket goes from each end: "[[1]]" gives the token "[1]" |
| Parse.ParseU32Decimal | src/main.rs:137 | a token reads as n exactly when n < 2^32 and the token is the decimal rendering of n after an optional `+` and any number of leading zeros |
| Parse.ParseU32OfDecimalString | src/main.rs:137 | a number in decimal, with or without a `+`, reads back as itself exactly when it is below 2^32 |
| Parse.ParseU32Examples | src/main.rs:137 | "", "+" and "-7" fail; "+7" and "007" read as 7 |
| Parse.DecimalValueOfString | src/main.rs:137 | the decimal rendering of n spells n |
| Parse.TokensOfRenderList | src/main.rs:78-85 | the tokens of a printed non-empty list `[a, b, c]` are the decimal renderings of its digits |
| Parse.ParseRenderedList | src/main.rs:78-85 | a non-empty list printed by `decode` reads back as the same digits; the empty list prints as `[]`, which `parse_numbers` refuses |
| TextMode.CastU8 | src/main.rs:104 | `n as u8` gives a byte that differs from n by a multiple of 256, and is n itself when n < 256 |
| TextMode.EncodeStr | src/main.rs:87-98 | text encoding, with the digit test exactly as written at line 170, always succeeds (every byte < 256 == 256 as u32) with the sum of byte[i] * 256^i |
| TextMode.DecodeStr | src/main.rs:99-107 | the bytes produced are Digits(v) at 256/8, pack back to v, and do not end in a zero byte; `as u8` loses nothing |
| TextMode.TextRoundTrip | src/main.rs:87-107 | decoding the encoding of any byte string gives it back without its trailing zero bytes |
| TextMode.TextRoundTripExact | src/main.rs:87-107 | a byte string that does not end in a zero byte comes back exactly |
| TextMode.LetterAExample | src/main.rs:87-107 | "A" (byte 65) encodes to 65 and 65 decodes to [65] |

## Left out

- `main` and `get_input` (src/main.rs:13-124) are not modelled. This covers the argument handling, the prompts on standard input and output, mode dispatch, printing, and the messages on standard error. `RenderList` models only the list format that `decode` prints.
- The unconditional debug print at src/main.rs:169 and the error message at src/main.rs:171-174 are not modelled. They are output only; the failure is modelled as `None`.
- A "verbose" trace is named in the usage text, but the code does not implement one, so the model has none either.
- Converting text to bytes, and checking the decoded bytes as UTF-8 with `String::from_utf8` (src/main.rs:104-107), are foreign library calls. `TextMode` works on byte sequences. The `trim()` applied to the text in `main` is left out as well.
- Decode: the model returns every remainder as a `nat`. It does not model the `to_u32().unwrap()` panic at src/main.rs:189, which fires when a remainder is 2^32 or more. That can only happen for limits above 2^32. `EncodeAfterDecode` therefore requires length <= 32.
- Decode: the precondition `number == 0 || (limit >= 1 && length >= 1)` stands for the source's panic on `% 0` and its endless loop when `length == 0`. Both can only happen when the number is positive.
- GetLength, Encode, Decode: `limit` and `length` are unbounded naturals. Machine-width `usize` is not modelled. The truncation finding assumes a 64-bit `usize`, which can hold 2^32.
- ParseNumbers: the result is `Option`, not `Result<_, Box<Error>>`. Its only caller discards the error value. `GetLength` returns `Result<nat, ()>`, as the source does.
- ParseU32 models `u32::from_str` by what that function documents: an optional `+`, then one or more ASCII digits, with a value below 2^32. The library's internal loop and its error kinds are not modelled. `IsWhitespace` lists the Unicode White_Space code points that Rust's `char::is_whitespace` uses.
- Encode: the source does not say which digit was out of range, so the model does not either.

## Findings

| source | as written | input that shows it | evidently intended | confidence | as-written member | corrected member |
|---|---|---|---|---|---|---|
| src/main.rs:170 | each digit is compared with `limit as u32`, so a limit of 2^32 or more is cut to its low 32 bits, which are 0 | `numcoder encode 0 4294967296`: `get_length` accepts 2^32 (length 32), then digit 0 is refused because `0 >= 0` | refuse a digit only when it is at or above the limit itself; every u32 digit fits below 2^32 | high; not executed | Codec.EncodeAsWritten, Codec.AsWrittenRefusesValidDigits | Codec.Encode |
