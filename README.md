# resistor-color in Dafny

A model of the Rust library `resistor-color`, which converts resistor colour
codes to resistance values. The model covers both halves of the library:

- **`BandColor`** (module `BandColors`, `band_color.dfy`). It holds the ten
  colours with their digit values 0 to 9.
  - `from_str` trims the name, lower-cases it and matches it against the ten
    names. An unknown name is an error that carries the original input.
  - `get_bands` refuses fewer than three names with an error carrying the
    count. Otherwise it parses every name in order and stops at the first one
    that fails.
- **`Resistor`** (module `Resistors`, `resistor.dfy`). It is an immutable
  sequence of bands.
  - `from_str` trims the input, splits it on every single space and hands the
    pieces to `get_bands`.
  - `with_bands` checks only the minimum of three bands.
  - `get_bands` returns the stored bands.
  - `get_value` reads the significant figures (two for 3- or 4-band
    resistors, three for 5- or 6-band resistors), then multiplies by ten to
    the power of the next band.

Module `Text` (`text.dfy`) models the three Rust standard library string
operations the parser relies on: `str::trim`, `str::to_lowercase` and
`str::split(' ')`, for ASCII text. Module `ResistorExamples`
(`resistor_examples.dfy`) derives the library's documented and tested
cases from the general lemmas.

`src/lib.rs` repeats the code of `src/band_color.rs` and `src/resistor.rs`,
line for line. It is modelled once. The table below cites the module files
and names the matching `src/lib.rs` lines in the third column.

`get_bands` is a loop that pushes onto a vector, so it is modelled twice:
- the method `BandColors.GetBands`, with the loop;
- the function `BandColors.ParseBands`, which states the result.

The method is proved to return exactly what the function does. The two
`from_str` pipelines and the lemmas use the function.

## Model

| member | source | states |
|---|---|---|
| BandColors.Digit | src/band_color.rs:34-55 | each colour's numeric value (`as u32`) is its discriminant, at most 9 (src/lib.rs:9-30) |
| BandColors.FromDigit | src/band_color.rs:34-55 | every digit 0..9 is the value of some colour |
| BandColors.DigitInjective | src/band_color.rs:34-55 | distinct colours have distinct values, and `FromDigit` inverts `Digit` |
| BandColors.Lookup | src/band_color.rs:60-71 | a colour found for a name is the one whose name it is |
| BandColors.LookupName | src/band_color.rs:61-70 | each of the ten lower-case names is matched to its own colour (src/lib.rs:36-45) |
| BandColors.FromStr | src/band_color.rs:57-73 | a successful parse yields the colour whose name is the trimmed, lower-cased input; a failure carries the original, untrimmed input (src/lib.rs:32-49) |
| BandColors.FromStrFailsIffUnknown | src/band_color.rs:60-71 | `from_str` fails if and only if the trimmed, lower-cased input is no colour's name |
| BandColors.FromStrNormalized | src/band_color.rs:60 | any input whose trimmed, lower-cased form is a colour's name parses to that colour |
| BandColors.FromStrAnyCasePadded | src/band_color.rs:60 | a colour's name in any mixture of letter case, with any whitespace around it, parses to that colour (src/lib.rs:35) |
| BandColors.FromStrName | src/band_color.rs:61-70 | every colour's own name parses back to it |
| BandColors.FromStrUnknown | src/band_color.rs:71 | a trimmed, lower-case string that is no colour's name is refused with an error carrying it |
| BandColors.UnknownNameAsdf | src/band_color.rs:71 | "asdf" is refused, and the error carries "asdf" |
| BandColors.UnknownNameBluee | src/band_color.rs:71 | "bluee" is refused, and the error carries "bluee" |
| BandColors.UnknownNameRedder | src/band_color.rs:71 | "redder" is refused, and the error carries "redder" |
| BandColors.MixedCaseBlackUpper | src/band_color.rs:60-61 | "BLACK" parses to Black |
| BandColors.MixedCaseBlackLastUpper | src/band_color.rs:60-61 | "BlacK" parses to Black |
| BandColors.MixedCaseBlackAlternating | src/band_color.rs:60-61 | "BlAcK" parses to Black |
| BandColors.FirstFailure | src/band_color.rs:88-92 | the index of the first name that does not parse; every earlier name parses |
| BandColors.ParseAll | src/band_color.rs:87-95 | on success, one colour per name, in order, each the parse of its name; on failure, the error of the first name that fails, and no partial result |
| BandColors.ParseBands | src/band_color.rs:79-96 | fewer than three names is an error carrying the count, whatever the names; success holds if and only if there are at least three names and all parse; the result keeps length and order; otherwise the error is that of the first failing name (src/lib.rs:54-71) |
| BandColors.ParseBandsAllParsed | src/band_color.rs:87-95 | when every one of at least three names parses, the result is exactly the parsed colours |
| BandColors.ParseBandsFirstFailure | src/band_color.rs:88-92 | when name i is the first that fails, its error is the result, unchanged |
| BandColors.GetBands | src/band_color.rs:79-96 | the loop with early return computes exactly `ParseBands` (src/lib.rs:54-71) |
| BandColors.GetBandsInsufficientExamples | src/band_color.rs:80-85 | two names, no names and one name are refused with counts 2, 0 and 1 |
| BandColors.GetBandsBadColorExample | src/band_color.rs:88-92 | three unknown names are refused with the first one's error |
| BandColors.GetBandsOrderExample | src/band_color.rs:87-95 | "brown", "brown", "red" give Brown, Brown, Red |
| Resistors.FromStr | src/resistor.rs:54-61 | success holds if and only if the trimmed input, split on spaces, has at least three tokens that all parse; the bands are those tokens' colours, in order; any error is `get_bands`' error, unchanged (src/lib.rs:123-130) |
| Resistors.WithBands | src/resistor.rs:96-102 | success holds if and only if there are at least three bands; the bands are stored unchanged, with no upper limit; otherwise the error carries the count (src/lib.rs:165-171) |
| Resistors.GetBands | src/resistor.rs:91-93 | `get_bands` returns the stored bands unchanged; `WithBands` and `FromStrFormat` state it gives back exactly the bands a resistor was built from (src/lib.rs:160-162) |
| Resistors.GetValue | src/resistor.rs:66-88 | the model of `get_value`: defined for 3 to 6 bands, the precondition replacing the panic; it computes (10·b0 + b1)·10^b2 for 3 or 4 bands and (100·b0 + 10·b1 + b2)·10^b3 for 5 or 6, as its body says; what that means is proved in `GetValueDecimal` and `TrailingBandsIgnored` (src/lib.rs:135-157) |
| Resistors.GetValueDecimal | src/resistor.rs:66-88 | the value is the significant-figure bands (two for 3 or 4 bands, three for 5 or 6) read as a decimal number, times ten to the multiplier band's digit; defined only for 3 to 6 bands (src/lib.rs:135-157) |
| Resistors.TrailingBandsIgnored | src/resistor.rs:67-80 | bands after the multiplier do not change the value: band 3 of a 4-band resistor, bands 4 and 5 of a 5- or 6-band one |
| Resistors.GetValueBound | src/resistor.rs:79-87 | the value is at most 999 times 10^9 |
| Resistors.GetValueFitsU32 | src/resistor.rs:69-87 | the figures and the multiplier always fit `u32`; the product fits when the multiplier is at most Violet (3 or 4 bands) or Blue (5 or 6 bands) |
| Resistors.NextMultiplierOverflows | src/resistor.rs:85-87 | the bounds in `GetValueFitsU32` are tight: 99·10^8 (Grey on 3 bands) and 999·10^7 (Violet on 5 bands) exceed `u32` |
| Resistors.WhiteWhiteWhiteExceedsU32 | src/resistor.rs:85-87 | "white white white" is a valid resistor whose value, 99 times 10^9, exceeds `u32` |
| Resistors.TokensJoin | src/resistor.rs:55 | space-free words joined by single spaces, with non-whitespace outer ends, split back into exactly those words |
| Resistors.TokensFormat | src/resistor.rs:55 | the band names joined by spaces split back into the names |
| Resistors.FromStrFormat | src/resistor.rs:54-61 | parsing the band names joined by spaces gives back the same bands, the same resistor as `with_bands` builds |
| Resistors.FromStrNames | src/resistor.rs:54-61 | any string that spells the band names with single spaces between them parses to those bands |
| Resistors.FromStrDoubleSpace | src/resistor.rs:55 | two adjacent spaces inside the trimmed input make an empty token, and parsing fails |
| Resistors.FromStrEmpty | src/resistor.rs:55-57 | the empty string splits into one empty token and is refused as one band |
| ResistorExamples.DocExample | src/lib.rs:81-90 | "brown black red" has Brown as band 0 and value 1000, and `with_bands` builds the same resistor (src/resistor.rs:12-20, 29-44) |
| ResistorExamples.BrownBrownRed | src/resistor.rs:54-88 | "brown brown red" gives bands Brown, Brown, Red and value 1100 |
| ResistorExamples.GreenYellowOrangeBlack | src/resistor.rs:54-88 | "green yellow orange black" decodes to 54000 |
| ResistorExamples.BrownBlackOrange | src/resistor.rs:54-88 | "brown black orange" decodes to 10000 |
| ResistorExamples.YellowBlueGreen | src/resistor.rs:54-88 | "yellow blue green" decodes to 4600000 |
| ResistorExamples.RedGreenBrown | src/resistor.rs:54-88 | "red green brown" decodes to 250 |
| ResistorExamples.BrownRedGreenRedWhite | src/resistor.rs:54-88 | "brown red green red white" decodes to 12500 |
| ResistorExamples.SixBlacks | src/resistor.rs:54-88 | six blacks decode to 0 |
| ResistorExamples.SevenBandsAccepted | src/resistor.rs:96-102 | seven bands are accepted by `with_bands`, which sets no maximum |
| Text.Trim | src/band_color.rs:60 | `str::trim` for ASCII whitespace: leading and trailing whitespace removed; its meaning is proved in `TrimStartShape`, `TrimEndShape`, `TrimPadded` and `TrimIdempotent` (also src/resistor.rs:55) |
| Text.TrimStartShape | src/band_color.rs:60 | `trim_start` keeps a suffix, cuts only whitespace, and leaves no leading whitespace |
| Text.TrimEndShape | src/band_color.rs:60 | `trim_end` keeps a prefix, cuts only whitespace, and leaves no trailing whitespace |
| Text.ToLower | src/band_color.rs:60 | `str::to_lowercase` for ASCII letters; its meaning is proved in `ToLowerAt` and `LowerChar` |
| Text.LowerChar | src/band_color.rs:60 | upper-case ASCII letters become the lower-case letter 32 code points up; every other character is kept |
| Text.Split | src/resistor.rs:55 | `str::split(' ')`: at least one piece; its meaning is proved in `JoinSplit`, `SplitJoin`, `SplitNoSpace` and `SplitDoubleSpace` |
| Text.TrimPadded | src/band_color.rs:60 | `trim` removes exactly the whitespace around a string whose ends are not whitespace |
| Text.TrimIdempotent | src/band_color.rs:60 | trimming a trimmed string changes nothing |
| Text.ToLowerAt | src/band_color.rs:60 | lower-casing keeps the length and maps each character on its own |
| Text.ToLowerIdentity | src/band_color.rs:60 | lower-casing leaves a string with no upper-case ASCII letter unchanged |
| Text.JoinSplit | src/resistor.rs:55 | joining the pieces of a split with spaces gives back the original string |
| Text.SplitJoin | src/resistor.rs:55 | splitting a join of space-free pieces gives back the pieces |
| Text.SplitNoSpace | src/resistor.rs:55 | no piece of a split contains a space |
| Text.SplitDoubleSpace | src/resistor.rs:55 | two adjacent spaces yield an empty piece |

## Left out

- Unicode: `trim` and `to_lowercase` are modelled for ASCII whitespace and ASCII letters only. Rust's versions also handle Unicode whitespace and non-ASCII case mappings, and the gap changes whether a name is accepted. `"blac\u{212A}"` ends in the Kelvin sign, which Rust lower-cases to `k`, so Rust parses it as Black; the model refuses it. Likewise Rust trims a no-break space (U+00A0) around a name and accepts it, while the model keeps it and refuses the name.
- Error message text: the English strings built by `format!` are not modelled. Each error is a value with its payload instead: `UnknownColor(input)` carries the original string, and `InsufficientBands(count)` carries the count. `with_bands` formats only the count, while `get_bands` builds a full sentence; both are `InsufficientBands(count)` here.
- Resistors.GetValue: computes an unbounded `nat` and does not model `u32` overflow, which panics in debug builds and wraps in release builds. `GetValueFitsU32` and `WhiteWhiteWhiteExceedsU32` state when the product fits and give a valid resistor whose value does not.
- Resistors.GetValue: the panic on a band count other than 3 to 6 is the precondition `3 <= |bands| <= 6`. No value is given for those counts.
- Move semantics: `get_value` takes the resistor by value in the Rust library. The model has no ownership, so a resistor values the same however often it is read.
- Gold, Silver, tolerance and temperature-coefficient bands are not implemented in the Rust library (TODO comments only), so they are not modelled.
- The `FromStr` trait, the `derive`d traits, and the test and doc-test harnesses are not modelled; the tests' cases become lemmas.
- Resistors.FromStr: uses the function `ParseBands` where the Rust library calls the `get_bands` loop. `BandColors.GetBands` is proved equal to `ParseBands`, so nothing is lost.
