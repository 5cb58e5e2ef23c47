# Percentage parser of massive-meilisearch-sampling

This project models the percentage option type of the sampling tool: the
`Percentage` newtype over `u8`, its `FromStr` implementation, the
`InvalidPercentage` error enum and that enum's `Display` messages
(`src/percentage.rs`). The tool uses it to read its `--deletes` and
`--updates` options (defaults `"10%"` and `"20%"`).

`FromStr` is a pure function, so the model is made of Dafny functions and
lemmas, in three modules:

- `Wrappers` (`wrappers.dfy`): Rust's `Option` and `Result`.
- `IntParse` (`int_parse.dfy`): the standard library's `u8::from_str`,
  which `left.parse()` calls, and the kinds of `ParseIntError` it can report
  for a `u8` (`Empty`, `InvalidDigit`, `PosOverflow`). `ParseU8` follows the
  library's digit loop (`Accumulate`): an optional leading `+` is removed. A
  lone sign is an invalid digit. A `-` is not a sign for an unsigned type, so
  it is an invalid digit too. For each character, the digit check comes before
  the overflow check, so `"26a"` gives `InvalidDigit` and `"260a"` gives
  `PosOverflow`. `ReadU8` is an independent, declarative reading of the same
  grammar. It uses positional notation (`DigitsValue`) and "some run of
  leading digits already passes 255" (`Overflows`). `ParseU8Meaning` proves
  that the two agree on every string. `DecimalText` (the shortest decimal
  text of a number) is a helper of the model, not of the source: nothing in
  the source formats a number. It serves only to state round trips such as
  `ParseFormatted` and `ParseDecimalText`.
- `Percentages` (`percentage.dfy`): `Percentage`, `InvalidPercentage`,
  `RSplitOnce` (`str::rsplit_once`), `FromStr` and `Message` (`Display`),
  and the properties of the parser.

Three behaviours of the code a reader may not expect:

- The text before the last `%` may itself contain `%`. It is then rejected
  by the number parse (`"5%%"` is `InvalidNumber`), not by the symbol check.
- A value above 255 is not `OutOfBound`. It is `InvalidNumber` carrying
  `PosOverflow`, because the number is parsed as a `u8` before the bound is
  checked. Only 101 to 255 give `OutOfBound`.
- The value range is not an invariant of the type. The field of `Percentage`
  is public. So "at most 100" is a promise of `FromStr` and nothing more.

## Model

| member | source | states |
|---|---|---|
| `Percentages.FromStr` | src/percentage.rs:10-22 | a successful parse yields a value of at most 100 (a `u8`, so at least 0) |
| `Percentages.RSplitOnce` | src/percentage.rs:11 | `None` exactly when the separator is absent; otherwise `left + [sep] + right` is the input and `right` holds no separator, so the split is at the last one |
| `Percentages.RSplitOnceUnique` | src/percentage.rs:11 | any split around a separator with none after it is the one `RSplitOnce` returns |
| `Percentages.MissingSymbol` | src/percentage.rs:11-12 | the result is `MissingModuleSymbol` exactly when the input does not end with `%` (no `%`, or characters after the last one) |
| `Percentages.ReadsNumberPart` | src/percentage.rs:11-13 | for input ending with `%`, the part handed to the number parse is everything before that final `%` |
| `Percentages.InvalidNumberCase` | src/percentage.rs:13 | the result is `InvalidNumber(e)` exactly when the input ends with `%` and the text before it is read as error `e` by the `u8` grammar |
| `Percentages.OutOfBoundCase` | src/percentage.rs:14-15 | the result is `OutOfBound` exactly when the text before the final `%` is a `u8` literal whose value is above 100 |
| `Percentages.OkCase` | src/percentage.rs:13-17 | parsing succeeds exactly on a `u8` literal of at most 100 followed by `%`, and the value is that literal's value |
| `Percentages.ParseFormatted` | src/percentage.rs:11-17 | the decimal text of n followed by `%` parses to n for n ≤ 100, gives `OutOfBound` for 101..255 and gives `InvalidNumber(PosOverflow)` above 255 |
| `Percentages.DefaultValues` | src/main.rs:20-24 | the default option texts `"10%"` and `"20%"` parse to 10 and 20 |
| `Percentages.LeadingZeroIgnored` | src/percentage.rs:13 | prefixing a `0` to any text other than `"%"` that does not start with `+` never changes the outcome: only the value is kept (`"07%"` and `"7%"` both give 7) |
| `Percentages.DoubledSymbol` | src/percentage.rs:11-13 | text followed by `%%` always fails as a number error: an overflow exactly when a run of leading digits of the number part (after an optional `+`) passes 255, otherwise an invalid digit |
| `Percentages.SymbolCheckedFirst` | src/percentage.rs:11-20 | the symbol error wins over any number error: `"abc"` and `"10%x"` give `MissingModuleSymbol` |
| `Percentages.NumberErrors` | src/percentage.rs:13 | `"%"` gives `Empty`, `"-1%"` and `"5%%"` give `InvalidDigit`, and `"256%"` gives `PosOverflow`, each wrapped in `InvalidNumber` |
| `Percentages.ValuesKept` | src/percentage.rs:13-17 | `"+7%"` and `"07%"` both parse to 7 |
| `Percentages.JustAboveBound` | src/percentage.rs:14-15 | `"101%"` is `OutOfBound`, not a number error |
| `Percentages.MessagesDistinct` | src/percentage.rs:32-43 | different errors print different messages, the two fixed texts and the three number-error messages included |
| `IntParse.ParseU8Meaning` | src/percentage.rs:13 | the digit loop of `u8::from_str` agrees with the declarative reading on every string: `Empty` for empty text, `PosOverflow` when leading digits pass 255, the positional value when all are digits, otherwise `InvalidDigit` |
| `IntParse.AccumulateFrom` | src/percentage.rs:13 | resuming the digit loop after any prefix of digits of value ≤ 255 ends as the declarative reading of the whole text says |
| `IntParse.ParseU8Ok` | src/percentage.rs:13 | `u8::from_str` succeeds exactly on an optional `+` followed by one or more digits of value at most 255, returning that value |
| `IntParse.ParseDecimalText` | src/percentage.rs:13 | the decimal text of any `u8` parses back to it |
| `IntParse.DecimalTextValue` | src/percentage.rs:13 | the positional value of the decimal text of n is n |
| `IntParse.DigitsValuePrefix` | src/percentage.rs:13 | a prefix of a run of digits never denotes more than the whole run |
| `IntParse.NonDigitFirst` | src/percentage.rs:13 | digit text after the optional `+` that starts with a non-digit (a `-` included) reads as `InvalidDigit` |
| `IntParse.LeadingZero` | src/percentage.rs:13 | a leading `0` before a non-empty unsigned literal does not change its parse |
| `IntParse.ErrorMessagesDistinct` | src/percentage.rs:35 | the three number errors print three different messages |
| `Percentages.Message` | src/percentage.rs:32-43 | a number error prints the `ParseIntError`'s own message; exactly the two other errors print a text starting with `T` (the fixed texts about the percentage); that all five texts differ is `MessagesDistinct` |
| `IntParse.ParseU8` | src/percentage.rs:13 | `Empty` exactly for the empty string; success only on text whose unsigned part is a non-empty run of digits; its full outcome on every string is `ParseU8Meaning` and `ParseU8Ok` |
| `IntParse.Accumulate` | src/percentage.rs:13 | the digit loop succeeds only on a run of digits, never with a value below what it had read, and never reports `Empty`; its exact outcome is `AccumulateFrom` |
| `IntParse.ErrorMessage` | src/percentage.rs:35 | each `ParseIntError` message is non-empty and does not start with `T`, so it is never one of the percentage's fixed texts; pairwise difference is `ErrorMessagesDistinct` |
| `IntParse.Unsigned` | src/percentage.rs:13 | removing the optional sign leaves a suffix of the literal |

## Left out

- `src/main.rs`: command-line parsing, the SQLite connection, the schema file, reading and deserialising the CSV dataset, the inserts, the "already ingested" check, the `.csv` extension check, the `ORDER BY RANDOM()` sampling and `Song::from_complete_row` are I/O over foreign libraries (clap, rusqlite, csv, serde) and randomness; only the default option texts are used, as inputs of `DefaultValues`.
- `u8::from_str` is the standard library's code, not part of this repository. It is modelled from its documented behaviour for radix 10 and unsigned targets. The `ParseIntError` kinds that a `u8` parse can never produce (`NegOverflow`, `Zero`) are not modelled.
- Rust strings are UTF-8 bytes; the model works on characters. Every non-ASCII byte is a non-digit, so the outcome is the same.
- The `Debug`, `Clone`, `PartialEq`, `Ord` and `Hash` derives and the empty `Error` impl carry no behaviour to model.
