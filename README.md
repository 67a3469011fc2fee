# extract_dimensions of the AI CAD Design Generator, in Dafny

The AI CAD Design Generator is a small Streamlit app. It sends a user's
description of a part to a hosted language model. It then pulls the box
dimensions out of the model's text reply with `extract_dimensions`, builds a
box with CadQuery and offers it as an STL download. This project models
`extract_dimensions`, the only part of the app that is logic of its own.

`extract_dimensions` works in two steps:

1. **Scan.** It finds every maximal run of decimal digits in the reply, left
   to right, as `re.findall(r'\d+', ...)` does.
2. **Assign by position.** If there are at least three runs, the first three,
   read as numbers, become `length`, `width` and `height` in that order.
   Otherwise all three keep their initial value 0.

The model has three modules:

- `Decimal` (`decimal.dfy`) covers ASCII digits and `Read`, the base-10 value
  of a digit string. Its partner is `Render`, the canonical spelling of a
  number. The two are proved inverse on canonical strings. `StripZeros`
  removes leading zeros, and `ReadEqualIff` proves that two digit strings
  read the same value exactly when they agree once their leading zeros are
  removed, so leading zeros are exactly what `Read` forgets.
- `DigitRuns` (`digit_runs.dfy`) holds `Runs`, the maximal digit runs of a
  text as strings, and `Numbers`, those runs as values. An independent
  description says a text is its runs interleaved with digit-free separators,
  and the separators between two runs are non-empty. `RunsCharacterization`
  proves that this description and `Runs` agree, in both directions. The
  module also has lemmas on how runs behave when text is appended. The
  single-pass scanner `ScanNumbers` keeps a running number and is proved
  equal to `Numbers`.
- `Dimensions` (`dimensions.dfy`) has the `Dims` record, the specification
  function `DimensionsOf` and the method `ExtractDimensions`. The method
  follows the source step by step: it starts from zeros, scans, and
  overwrites the three entries. The module also has the positional and
  "later runs ignored" lemmas and worked examples taken from the app's own
  sample prompt.

Digits are the ASCII characters `'0'`..`'9'`. Extracted values are natural
numbers. Extraction is total: `Runs`, `Numbers`, `ScanNumbers`,
`DimensionsOf` and `ExtractDimensions` have no precondition, so they are
defined on every string, including the empty one, and the result always has
exactly the three fields. The helpers that read digits (`DigitValue`, `Read`,
`Values`) require digit input, and every run the scan produces is all digits.

## Model

| member | source | states |
|---|---|---|
| `Decimal.IsDigit` | streamlit_app.py:33 | what `\d` matches: an ASCII digit; `DigitsAreTen` proves these are exactly the ten characters '0' to '9' |
| `Decimal.DigitsAreTen` | streamlit_app.py:33 | a character is a digit if and only if it is one of "0123456789" |
| `Decimal.DigitValue` | streamlit_app.py:35-37 | a digit character has a value below ten |
| `Decimal.DigitChar` | streamlit_app.py:35-37 | every value below ten has a digit character whose value it is |
| `Decimal.Read` | streamlit_app.py:35-37 | a string of k digits reads as a natural number below 10^k |
| `Decimal.ReadSnoc` | streamlit_app.py:35-37 | appending a digit multiplies the value by ten and adds the digit (a direct corollary of the definition of `Read`) |
| `Decimal.ReadLeadingZero` | streamlit_app.py:35-37 | one leading '0' does not change the value ("007" reads as 7) |
| `Decimal.ReadLeadingZeros` | streamlit_app.py:35-37 | any number of leading zeros does not change the value |
| `Decimal.Render` | streamlit_app.py:35-37 | every natural number has a canonical spelling: digits only, non-empty, no superfluous leading zero |
| `Decimal.ReadRender` | streamlit_app.py:35-37 | reading the canonical spelling of n gives n back |
| `Decimal.ReadAtLeastTen` | streamlit_app.py:35-37 | two or more digits that do not start with '0' read as at least 10 |
| `Decimal.RenderRead` | streamlit_app.py:35-37 | spelling the value of a canonical digit string gives that string back |
| `Decimal.CanonicalReadInjective` | streamlit_app.py:35-37 | two canonical digit strings with the same value are equal |
| `Decimal.StripZeros` | streamlit_app.py:35-37 | every digit string is a block of '0's followed by either nothing or a canonical string that does not start with '0' |
| `Decimal.StripZerosRead` | streamlit_app.py:35-37 | removing the leading zeros keeps the value read |
| `Decimal.ReadPositive` | streamlit_app.py:35-37 | a non-empty digit string that does not start with '0' reads above 0 |
| `Decimal.ReadEqualIff` | streamlit_app.py:35-37 | two digit strings read the same value if and only if they are equal once their leading zeros are removed |
| `DigitRuns.LeadingDigits` | streamlit_app.py:33 | the length of the longest all-digit prefix: all digits up to it, a non-digit or the end right after it |
| `DigitRuns.LeadingDigitsUnique` | streamlit_app.py:33 | that prefix is the only all-digit prefix that cannot be extended by a digit |
| `DigitRuns.Runs` | streamlit_app.py:33 | every run found is non-empty and made of digits only |
| `DigitRuns.Values` | streamlit_app.py:35-37 | the runs read in base 10, one number per run, in the same order |
| `DigitRuns.Numbers` | streamlit_app.py:33-37 | the numbers of a text: its runs read in base 10; what they are is proved in `NumbersOfJoin`, `NumbersSnoc` and `ScanNumbers` |
| `DigitRuns.Separators` | streamlit_app.py:33 | every text is its runs interleaved with digit-free separators, and the separators between runs are non-empty, so runs are maximal |
| `DigitRuns.SkipSeparator` | streamlit_app.py:33 | a digit-free prefix adds no run |
| `DigitRuns.TakeRun` | streamlit_app.py:33 | a digit string followed by a non-digit or by the end is taken whole, as one run |
| `DigitRuns.RunsOfJoin` | streamlit_app.py:33 | any interleaving of runs with digit-free, non-empty-between separators scans back to exactly those runs |
| `DigitRuns.RunsCharacterization` | streamlit_app.py:33 | Runs(s) == runs if and only if s is runs interleaved with such separators |
| `DigitRuns.NumbersOfJoin` | streamlit_app.py:33-37 | for runs interleaved with such separators, the numbers of the text are exactly those runs read in base 10, in order |
| `DigitRuns.RunsAppend` | streamlit_app.py:33 | if the boundary between two texts is not digit-to-digit, the runs of their concatenation are the runs of the first followed by the runs of the second |
| `DigitRuns.RunsAppendAfterRun` | streamlit_app.py:33 | for a text that starts with a run followed by a non-digit, appending across a non-digit boundary appends the runs of the new text |
| `DigitRuns.RunsAppendKeepsPrefix` | streamlit_app.py:33 | appending text keeps every run but the last in place |
| `DigitRuns.RunsExtend` | streamlit_app.py:33 | a digit appended right after a digit lengthens the last run and starts no new one |
| `DigitRuns.NumbersSnoc` | streamlit_app.py:33-37 | one more character leaves the numbers alone (non-digit), starts a new number (digit after a non-digit or at the start), or adds a decimal place to the last number (digit after a digit) |
| `DigitRuns.ScanNumbers` | streamlit_app.py:33-37 | a single left-to-right pass with a running number returns exactly the numbers of the text, in order |
| `Dimensions.DimensionsOf` | streamlit_app.py:31-38 | the specification of `extract_dimensions`; what it returns is proved in `DimensionsOfSeparated`, `DimensionsIgnoreWords`, `DimensionsZero`, `LaterTextIgnored` and `LaterRunsIgnored` |
| `Dimensions.ExtractDimensions` | streamlit_app.py:30-38 | starting from all zeros and overwriting the three entries when at least three numbers are found returns DimensionsOf(response) |
| `Dimensions.DimensionsOfSeparated` | streamlit_app.py:31-37 | for runs interleaved with digit-free words, the result is the 1st, 2nd and 3rd runs read in base 10, or all zeros when there are fewer than three runs |
| `Dimensions.DimensionsIgnoreWords` | streamlit_app.py:33-37 | assignment is positional: replacing the words around the numbers does not change the result |
| `Dimensions.DimensionsZero` | streamlit_app.py:31-37 | the result is all zeros exactly when fewer than three numbers are found or the first three found are 0 (a direct corollary of the definition of `DimensionsOf`) |
| `Dimensions.LaterTextIgnored` | streamlit_app.py:34-37 | once a reply holds four or more numbers, no appended text changes the result |
| `Dimensions.LaterRunsIgnored` | streamlit_app.py:34-37 | with three or more numbers, text appended across a non-digit boundary does not change the result |
| `Dimensions.ExampleSamplePrompt` | streamlit_app.py:14 | the app's sample description "Create a box with length 10mm, width 5mm, and height 15mm.", read as a reply, gives (10, 5, 15); the app itself passes the language model's reply, not the prompt, to `extract_dimensions` |
| `Dimensions.ExamplePlain` | streamlit_app.py:33-37 | "10 5 15" gives (10, 5, 15) |
| `Dimensions.ExampleTimes` | streamlit_app.py:32-37 | "10x5x15", the "length x width x height" shape, gives (10, 5, 15) |
| `Dimensions.ExampleKeywordsIgnored` | streamlit_app.py:33-37 | "height 15 width 5 length 10" gives length 15, width 5, height 10 |
| `Dimensions.ExampleDecimalPoint` | streamlit_app.py:33 | "10.5" holds the two numbers 10 and 5 |
| `Dimensions.ExampleMinusSign` | streamlit_app.py:33 | "-3" holds the number 3, not -3 |
| `Dimensions.ExampleLeadingZeros` | streamlit_app.py:33-37 | "007 x 1 x 2" gives (7, 1, 2) |
| `Dimensions.ExampleEmpty` | streamlit_app.py:31-34 | the empty reply gives (0, 0, 0) |
| `Dimensions.ExampleTooFew` | streamlit_app.py:31-34 | "10 by 5", with two numbers, gives (0, 0, 0) |
| `Dimensions.ExampleDecimalSplit` | streamlit_app.py:33-37 | "10.5 by 2" gives (10, 5, 2), because the decimal is split |

## Left out

- `process_user_input` (streamlit_app.py:17-27) is not modelled. It calls a hosted language model over the network, and its reply is nondeterministic. `extract_dimensions` takes that reply as its parameter.
- The Streamlit user interface (title, text area, button, messages, download button, streamlit_app.py:1-14, 41-50, 58-67) is presentation and I/O and is not modelled.
- Building the box with CadQuery and writing `design.stl` (streamlit_app.py:52-56) call into a library that is not part of this model. This includes what happens when zero dimensions reach the box builder.
- The source turns each run into a floating-point number with `float(...)`, while the default 0 is an integer. The model uses natural numbers for both. It does not model the loss of precision for runs longer than a double can hold exactly, nor that a run too large for a double (a value above about 1.8e308, which takes at least 309 digits) becomes `inf` without an error; the model returns the exact natural number.
- Python's `\d` also matches non-ASCII decimal digits (Arabic-Indic, full-width and others). The model treats only ASCII '0'..'9' as digits.
- streamlit_app.py has no units, no keyword grammar, no shape classification and no error for too few numbers. The model follows it: assignment is by position only, and fewer than three numbers give a silent all-zero result.
- `DigitRuns.ScanNumbers` stands for `re.findall` followed by `float` on each match. It is a single pass that produces values directly. The intermediate list of match strings is `DigitRuns.Runs`, and the two are related through `DigitRuns.Numbers`.
