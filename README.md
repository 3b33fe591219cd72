# scr-ieee754 in Dafny

A desktop converter between two 32-bit floating-point layouts. One is the "internal"
low-latency layout: sign bit 31, a 7-bit exponent in bits 30..24, a 23-bit mantissa in
bits 23..1 and a flag in bit 0. The other is IEEE 754 binary32: sign bit 31, an 8-bit
exponent in bits 30..23 and a 23-bit mantissa in bits 22..0. The user types a word in
binary or hexadecimal and picks a direction. The program cleans the text, decides its
format, parses it with `u32::from_str_radix`, converts the word and shows the result
or an error message.

The project has four modules:

- `FpEngine` (`fp_engine.dfy`) is the codec. It has one datatype per layout over a
  `bv32` word, getters that shift and mask, and the two conversions. The properties
  proved are the field-level effect of each conversion, both round trips and the
  zero handling.
- `RadixParse` (`radix_parse.dfy`) is `u32::from_str_radix` for the radixes the
  program uses. It is a left-to-right checked digit fold. An independent reference,
  `Value`, gives the number a digit string denotes, and the fold is proved against it.
  The model also proves when a value fits in 32 bits: 32 significant binary digits or
  8 hexadecimal ones.
- `App` (`app.dfy`) holds `input_format`, `parse_input` and the two default texts.
  `parse_input` is an imperative method. Its out-values are proved equal to a
  functional specification, `Outcome`. Lemmas characterise format detection and
  success, and give the error kind of every failing input: the format error, Empty,
  InvalidDigit at the first non-digit, and PosOverflow once the digits stop fitting.
- `Wrappers` (`wrappers.dfy`) holds `Option` and `Result`.

Two facts about the code are worth stating outright:

- In the IEEE direction `exponent + 127` never exceeds 8 bits: the low-latency
  exponent has 7 bits, so the sum is at most 254. The only carry into the IEEE
  exponent field is the unmasked mantissa shift (`ToStandardExponent`,
  `ToStandardMantissaCarry`).
- The parser reports a format error or one of the three `ParseIntError` texts an
  unsigned parse can produce: empty, invalid digit and overflow. `ErrorMessage` keeps
  the program's Polish prefix and message texts, and `ErrorMessageDistinct` shows the
  four messages are pairwise different.

`InputFormat::None` is called `Unrecognized` here, so that it does not clash with
`Option.None`.

## Model

| member | source | states |
|---|---|---|
| FpEngine.LowLatencyFloat.Zero | src/fp_engine.rs:26-28 | the zero value has representation 0 and every field clear |
| FpEngine.LowLatencyFloat.FromBits | src/fp_engine.rs:35-39 | `From<u32>` keeps the word: its representation is the input |
| FpEngine.LowLatencyFloat.Pack | src/fp_engine.rs:91 | packing reads back the mantissa unchanged, the low 7 exponent bits, a sign that exponent bit 7 also sets, and a clear bit 0 |
| FpEngine.LowLatencyFloat.Representation | src/fp_engine.rs:30-32 | the raw word is 0 exactly when sign, exponent, mantissa and flag are all clear |
| FpEngine.LowLatencyFloat.Sign | src/fp_engine.rs:10 | the sign field (bit 31) is set exactly for words from 0x80000000 up |
| FpEngine.LowLatencyFloat.ZeroBit | src/fp_engine.rs:7 | the flag field `zero` (bit 0) is set exactly for odd words |
| FpEngine.LowLatencyFloat.Exponent | src/fp_engine.rs:9 | the exponent field (bits 30..24) is below 128 |
| FpEngine.LowLatencyFloat.Mantissa | src/fp_engine.rs:8 | the mantissa field (bits 23..1) is below 2^23 |
| FpEngine.StandardFloat.Zero | src/fp_engine.rs:45-47 | the zero value has representation 0 and every field clear |
| FpEngine.StandardFloat.FromBits | src/fp_engine.rs:54-58 | `From<u32>` keeps the word: its representation is the input |
| FpEngine.StandardFloat.Pack | src/fp_engine.rs:73 | packing reads back the sign, the exponent OR-ed with bit 23 of the mantissa, and the low 23 mantissa bits |
| FpEngine.StandardFloat.Representation | src/fp_engine.rs:49-51 | the raw word is 0 exactly when sign, exponent and mantissa are all clear |
| FpEngine.StandardFloat.Sign | src/fp_engine.rs:19 | the sign field (bit 31) is set exactly for words from 0x80000000 up |
| FpEngine.StandardFloat.Exponent | src/fp_engine.rs:18 | the exponent field (bits 30..23) is below 256 |
| FpEngine.StandardFloat.Mantissa | src/fp_engine.rs:17 | the mantissa field (bits 22..0) is below 2^23 |
| FpEngine.LowLatencyFieldsPartition | src/fp_engine.rs:3-11 | sign, exponent, mantissa and flag fields put back at their offsets rebuild the word |
| FpEngine.StandardFieldsPartition | src/fp_engine.rs:13-20 | sign, exponent and mantissa fields put back at their offsets rebuild the word |
| FpEngine.ToStandard | src/fp_engine.rs:60-76 | the IEEE word is 0 exactly when the low-latency word is 0 |
| FpEngine.ToStandardSign | src/fp_engine.rs:66-73 | for a non-zero word the sign bit is inverted |
| FpEngine.ToStandardExponent | src/fp_engine.rs:67-73 | for a non-zero word the exponent field is `(e + 127) OR (m >> 22)`, at least 127, and exactly `e + 127 <= 254` when mantissa bit 22 is clear |
| FpEngine.ToStandardMantissa | src/fp_engine.rs:68-73 | for a non-zero word the mantissa field is the low 22 mantissa bits shifted left by one; its bit 0 is clear |
| FpEngine.ToLowLatency | src/fp_engine.rs:78-94 | 0 maps to 0 and the flag bit 0 of the result is always clear |
| FpEngine.ToLowLatencySign | src/fp_engine.rs:84-91 | for a non-zero word the sign is inverted when the exponent is at most 254, and always set when it is 255 |
| FpEngine.ToLowLatencyExponent | src/fp_engine.rs:85-91 | for a non-zero word the exponent saturates: 0 below 127, `E - 127` for 127..254, 0 for 255 |
| FpEngine.ToLowLatencyMantissa | src/fp_engine.rs:86-91 | for a non-zero word the mantissa is the IEEE mantissa shifted right by one, so it is below 2^22 |
| FpEngine.LowLatencyRoundTrip | src/fp_engine.rs:60-94 | low-latency to IEEE and back gives the word with bit 0 cleared, for non-zero words with mantissa bit 22 clear |
| FpEngine.StandardRoundTrip | src/fp_engine.rs:60-94 | IEEE to low-latency and back gives the word with bit 0 cleared, for exponents 127..254 whose image is not 0 |
| FpEngine.ToLowLatencyCollapsesToZero | src/fp_engine.rs:80-92 | the non-zero IEEE words 0x80000000 and 0xBF800000 map to the zero word |
| FpEngine.ToStandardMantissaCarry | src/fp_engine.rs:68-73 | 0x01800000 becomes 0xC0800000: the top mantissa bit raises the exponent to 129 and leaves the mantissa 0 |
| FpEngine.ToLowLatencyExponentOverflow | src/fp_engine.rs:88-91 | the IEEE words 0x7F800000 and 0xFF800000 (exponent 255, mantissa 0, either sign) both map to 0x80000000 |
| FpEngine.DefaultWordsCorrespond | src/main.rs:37-38 | 0x8F7FFF00 converts to 0x477FFF00, and 0x477FFF00 converts back to 0x8F7FFF00 |
| RadixParse.ToDigit | src/main.rs:79-80 | a digit's value is below the radix, and it is 0 exactly for '0' |
| RadixParse.CheckedFold | src/main.rs:79-80 | the digit loop never reports an empty string and never yields more than `u32::MAX` |
| RadixParse.CheckedFoldValue | src/main.rs:79-80 | the loop succeeds exactly when every character is a digit and the value fits in 32 bits, and then it yields `Value` |
| RadixParse.FromStrRadix | src/main.rs:79-80 | `from_str_radix` reports Empty exactly for the empty string, and succeeds only on a numeral (an optional `+`, then at least one digit) |
| RadixParse.CheckedFoldInvalidAt | src/main.rs:79-80 | the loop fails with InvalidDigit at a non-digit whose preceding digits still fit |
| RadixParse.CheckedFoldOverflowAt | src/main.rs:79-80 | the loop fails with PosOverflow once its leading digits no longer fit, whatever follows |
| RadixParse.FromStrRadixInvalidDigitAt | src/main.rs:79-80 | `from_str_radix` fails with InvalidDigit at the first non-digit after the optional `+`, when the digits before it fit |
| RadixParse.FromStrRadixOverflowAt | src/main.rs:79-80 | `from_str_radix` fails with PosOverflow once the leading digits after the optional `+` no longer fit |
| RadixParse.FromStrRadixTooManyDigits | src/main.rs:79-80 | a numeral with more than k significant digits, where radix^k = 2^32, fails with PosOverflow |
| RadixParse.CheckedFoldDigitsOnly | src/main.rs:79-80 | on a string of digits the loop never reports an invalid digit |
| RadixParse.FromStrRadixSpec | src/main.rs:79-80 | `from_str_radix` reports Empty exactly for the empty string, succeeds exactly for a numeral whose value fits, and then returns that value |
| RadixParse.ValueUpperBound | src/main.rs:79-80 | n digits denote less than radix^n |
| RadixParse.ValueLowerBound | src/main.rs:79-80 | n digits without a leading zero denote at least radix^(n-1) |
| RadixParse.StripLeadingZeros | src/main.rs:79-80 | the result is a suffix without a leading zero, and only zeros were dropped |
| RadixParse.ValueIgnoresLeadingZeros | src/main.rs:79-80 | leading zeros do not change the value |
| RadixParse.PowersAtU32Limit | src/main.rs:79-80 | 2^32 and 16^8 are both `u32::MAX + 1` |
| RadixParse.FitsIffSignificantDigits | src/main.rs:79-80 | a digit string fits in 32 bits exactly when it has at most k significant digits, where radix^k = 2^32 |
| App.RemoveSpaces | src/main.rs:59 | the result has no space and is no longer than the input |
| App.RemoveSpacesNoSpaces | src/main.rs:59 | text without spaces is left unchanged |
| App.Lowercase | src/main.rs:59 | the result has the same length and lower-cases each character in place |
| App.Clean | src/main.rs:59 | cleaned text has no space and no upper-case ASCII letter |
| App.TrimHexPrefix | src/main.rs:80 | the result does not start with `0x` and is a suffix whose dropped prefix is a whole number of copies of `0x` |
| App.DetectFormat | src/main.rs:58-69 | empty cleaned text is binary, and cleaned text starting with `0x` is hexadecimal whatever follows |
| App.ParseNumber | src/main.rs:74-82 | the format error comes exactly from unrecognised text, and success needs non-empty cleaned text |
| App.Convert | src/main.rs:84-97 | towards the internal layout the flag bit 0 is clear; towards IEEE 754 the word is 0 or has an exponent field of at least 127 |
| App.ErrorMessage | src/main.rs:81-102 | every message starts with the prefix and has text after it |
| App.ErrorMessageDistinct | src/main.rs:81-102 | different errors give different messages |
| App.ParseInput | src/main.rs:71-104 | exactly one of result and error is set; on success the result is the converted word, on failure the error is the prefixed message |
| App.CleanIdempotent | src/main.rs:59 | cleaning cleaned text changes nothing |
| App.SameCleanSameParse | src/main.rs:58-82 | texts with the same cleaned text have the same format and parse |
| App.ParseSeesOnlyCleanText | src/main.rs:58-82 | format and parse of the cleaned text equal those of the raw text |
| App.SpacesIgnored | src/main.rs:58-82 | inserting a space changes neither the cleaned text, nor the format, nor the parse |
| App.CaseIgnored | src/main.rs:58-82 | texts equal up to letter case have the same cleaned text, format and parse |
| App.AllHexDigitsIff | src/main.rs:64 | `all(is_digit(16))` agrees with the radix-16 digit test of the parser |
| App.DetectFormatCases | src/main.rs:58-69 | binary exactly when all characters are '0'/'1'; hexadecimal exactly when not binary and starting with `0x` or all hex digits; otherwise unrecognised |
| App.BinaryTextIsNumeral | src/main.rs:61-62 | binary text needs no further space removal, is made of radix-2 digits, and has no sign to strip |
| App.BinaryParse | src/main.rs:79 | binary text parses exactly when non-empty with at most 32 significant digits, and then to the number it denotes |
| App.HexadecimalParse | src/main.rs:80 | hexadecimal text parses exactly when what follows the `0x` prefixes is a numeral with at most 8 significant digits, and then to the number it denotes |
| App.ParseNumberFails | src/main.rs:78-82 | format error exactly for unrecognised text; Empty exactly for blank binary text or nothing after the `0x` prefixes; binary overflow exactly past 32 significant digits; text after the `0x` prefixes (and an optional `+`) that is not all hexadecimal digits fails |
| App.HexadecimalInvalidDigitAt | src/main.rs:80 | hexadecimal text fails with InvalidDigit at the first non-digit after the `0x` prefixes and an optional `+`, when the digits before it fit |
| App.HexadecimalOverflowAt | src/main.rs:80 | hexadecimal text fails with PosOverflow once the digits after the `0x` prefixes and an optional `+` no longer fit |
| App.HexadecimalOverflow | src/main.rs:80 | a hexadecimal numeral with more than 8 significant digits fails with PosOverflow |
| App.HexadecimalLoneSign | src/main.rs:80 | a lone `+` or `-` after the `0x` prefixes fails with InvalidDigit |
| App.CheckedFoldNeverInvalid | src/main.rs:79 | a radix-2 parse of non-empty binary digits can fail only by overflow |
| App.IeeeDefaultParses | src/main.rs:37 | "8F7F FF00" is hexadecimal text for 0x8F7FFF00 |
| App.InternalDefaultParses | src/main.rs:38 | "477F FF00" is hexadecimal text for 0x477FFF00 |
| App.DefaultInputsRoundTrip | src/main.rs:37-38 | the button on each default text yields the conversion of the number it spells, and 0x8F7FFF00 and 0x477FFF00 convert into each other |
| App.BinaryWinsOverHex | src/main.rs:61-65 | "10" is binary and parses to 2, not 0x10 |
| App.RepeatedHexPrefix | src/main.rs:80 | "0x0x1F" drops both prefixes and parses to 0x1F |
| App.HexPrefixAlone | src/main.rs:64 | "0X" is hexadecimal with an empty numeral |
| App.BlankText | src/main.rs:61 | text of only spaces is binary with an empty numeral |

## Left out

- The egui/eframe window (`src/main.rs:7-22`, `30-36`, `39-49` and `107` onward; the default texts on lines 37-38 are modelled) is not modelled. That covers the window state, the radio buttons, the button that calls `parse_input`, and swapping the default text when the mode changes. `ParseInput` takes the text and mode as parameters and returns the result and the error as out-values. It does not update the window's fields.
- The display formatting of the result (binary and hexadecimal rendering in the window) is not modelled.
- The setters that the `bitfield!` macro generates are not used by the core and are not modelled. Only the getters and the raw word are.
- The numeric value a word denotes as a float is not modelled. The codec only moves bits.
- Lowercase: only ASCII letters are lower-cased, whereas Rust's `to_lowercase` is full Unicode. A letter that lower-cases to an ASCII digit, to `x` or to a space does not exist. A non-ASCII character is never a binary or hexadecimal digit, before or after lower-casing. So format and parse outcomes are the same. The Kelvin sign lower-cases to `k`, which is not a digit either. The difference shows only in the text of the cleaned string, which the program never displays.
- FromStrRadix works on characters, whereas Rust's `from_str_radix` works on UTF-8 bytes. A non-ASCII character's first byte is already not a digit, so the first failure and its kind are the same.
- DefaultInputsRoundTrip: the numbers the two default texts parse to, and the words they convert to, are stated separately. The verifier's solver does not evaluate the integer-to-32-bit-word cast that joins them on these constants.
- Panics of `from_str_radix` for radixes outside 2..36 cannot happen, since the program only uses 2 and 16. `Radix` is restricted to that range.
