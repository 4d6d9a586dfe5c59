# BankOCR in Dafny

This project models the two classes at the core of BankOCR, a solution to the "bank OCR" kata.

- **`OCRConverter`** reads a block of text. The block holds four rows of 27 characters, each row followed by a newline. The converter reads it as nine seven-segment glyphs.
  - The 3×3 cell of each glyph becomes a product of prime weights, one weight per non-blank sub-cell.
  - Ten constant products name the digits 0–9. Any other product gives the sentinel `BadValue` (19).
  - The result is reversed, so index 0 holds the rightmost glyph.
- **`AccountValidator`** computes the account-number checksum, a weighted sum mod 11 in which index `i` has weight `9 - i`. It also repairs a number:
  1. It looks up each digit's look-alikes in a confusion table.
  2. It enumerates every combination with an odometer over the alternatives.
  3. It keeps the combinations whose checksum is 0.

The Dafny modules follow the source:

| module | file | what it holds |
|---|---|---|
| `Results` | results.dfy | `Option` stands for a C# null; `Result` stands for a thrown exception |
| `OcrConverter` | ocr_converter.dfy | `OCRConverter.cs`: the weights, the prime constants, the scan loop, and the decoding, with the unique-factorisation argument behind the constants |
| `OcrExamples` | ocr_examples.dfy | the all-zeros and all-ones blocks of the test suite, and the reversal that the tests' `ToValue` helper undoes |
| `AccountValidator` | account_validator.dfy | `AccountValidator.cs`: the checksum, the confusion table, the odometer `CreatePossibilities`, and `TryFixInvalidNumber` |
| `CandidateSpace` | candidate_space.dfy | the specification of the odometer: the lexicographic Cartesian product, last key fastest, and the mixed-radix rank of an index vector |
| `RepairCount` | repair_count.dfy | counting repairs by residue classes mod 11, so that concrete counts can be proved without enumerating the candidates |
| `ValidatorExamples` | validator_examples.dfy | the checksum cases and the repair counts from the test suite |

How the source's mechanisms are modelled:

- A C# exception is a `Result.Err` value:
  - `ArgumentNullException` is `ArgumentNull`;
  - `ArgumentException` is `ImproperlyFormatted` or `InvalidLength`;
  - an `IndexOutOfRangeException` from `_matchTable[digit]` is `IndexOutOfRange`.
- `Environment.NewLine.Length` is the parameter `nl`.
- C#'s truncating `%` is `CsRemainder`.

## Model

| member | source | states |
|---|---|---|
| OcrConverter.ConvertPrimeValueToDigit | BankOCR/OCRConverter.cs:63-79 | the result is a digit 0..9 or BadValue; a digit result is the digit whose constant equals the input; BadValue exactly when no digit constant equals the input |
| OcrConverter.DigitPrimeRoundTrip | BankOCR/OCRConverter.cs:16-25 | each of the ten constants decodes back to its own digit, and the ten constants are pairwise distinct |
| OcrConverter.SegmentsProduct | BankOCR/OCRConverter.cs:9-25 | each constant is the product of the weights of that digit's seven-segment strokes |
| OcrConverter.CornersIgnored | BankOCR/OCRConverter.cs:9-14 | the two top-row corner sub-cells have weight 1, so clearing them never changes a cell's product |
| OcrConverter.FactorOut | BankOCR/OCRConverter.cs:47-48 | a cell's product is one sub-cell's weight (1 when blank) times the product of the cell with that sub-cell cleared |
| OcrConverter.ProductStrict | BankOCR/OCRConverter.cs:9-14 | filling a further non-corner sub-cell strictly increases a cell's product |
| OcrConverter.DigitDeterminedByStrokes | BankOCR/OCRConverter.cs:9-25 | a cell decodes to digit d if and only if its filled strokes (corners aside) are exactly d's segments (unique factorisation) |
| OcrConverter.BadValueIffNoMatch | BankOCR/OCRConverter.cs:77 | a cell decodes to BadValue if and only if its strokes match no digit's segments |
| OcrConverter.ScanStep | BankOCR/OCRConverter.cs:43-48 | one loop step reads inside the string and multiplies the product of cell colPos/3 by the weight of sub-cell colPos%3 + 3*rowPos |
| OcrConverter.VisitedStep | BankOCR/OCRConverter.cs:50-57 | advancing the column (wrapping to the next row after column 26) moves glyph cell colPos/3 on by exactly one sub-cell in row-major order and leaves the other eight cells where they were |
| OcrConverter.ScanBounds | BankOCR/OCRConverter.cs:30-58 | the scan starts with nine 1s, and after three rows entry c is the product of glyph cell c |
| OcrConverter.CellReads | BankOCR/OCRConverter.cs:43-47 | the character at stringPos is the sub-cell colPos%3 + 3*rowPos of glyph colPos/3, filled exactly when it is not a space |
| OcrConverter.OnlyGlyphRowsRead | BankOCR/OCRConverter.cs:57 | two blocks that agree on the first three rows decode to the same digits; the fourth row and the newlines are never read |
| OcrConverter.ConvertWithPrimes | BankOCR/OCRConverter.cs:28-61 | null gives ArgumentNull; a length other than 4*27 + 4*nl gives ImproperlyFormatted; otherwise nine products, entry k being the product of glyph cell 8-k |
| OcrConverter.ConvertPrimeValueToAccountNumber | BankOCR/OCRConverter.cs:81-90 | the output has the input's length, and entry i is the decoding of value i (a digit or BadValue) |
| OcrConverter.Convert | BankOCR/OCRConverter.cs:92-97 | the same errors as ConvertWithPrimes; otherwise nine entries, entry k being the decoded digit of glyph cell 8-k |
| OcrExamples.AllZeroesDecodes | BankOCR.Tests/OCRConversionTests.cs:10-22 | the all-zeros block has the required length for any newline, and each of its nine glyphs decodes to 0 |
| OcrExamples.AllOnesDecodes | BankOCR.Tests/OCRConversionTests.cs:24-36 | the all-ones block has the required length for any newline, and each of its nine glyphs decodes to 1 |
| OcrExamples.ToValueOfReversed | BankOCR.Tests/OCRConversionTests.cs:147-155 | the test helper ToValue (index i weighs 10^i) applied to the reversed converter output equals the glyphs read left to right as a decimal number |
| AccountValidator.CsRemainder | BankOCR/AccountValidator.cs:21 | C#'s remainder lies strictly between -m and m, agrees with the mathematical remainder for non-negative operands, and is non-positive for non-positive ones |
| AccountValidator.CsRemainderZero | BankOCR/AccountValidator.cs:21 | the truncating remainder is 0 exactly when m divides a |
| AccountValidator.WeightedSumIsKataSum | BankOCR/AccountValidator.cs:14-20 | the sum the loop accumulates (weight 9-i at index i, BadValue entries skipped) equals the kata's back-indexed sum over positions 1..n |
| AccountValidator.ChecksumOfNaturals | BankOCR/AccountValidator.cs:13-21 | for non-negative entries the checksum is the weighted sum mod 11 and lies in 0..10 |
| AccountValidator.ValidIffKataSumDivisible | BankOCR/AccountValidator.cs:24-28 | a nine-entry number is valid if and only if its kata sum is divisible by 11 |
| AccountValidator.CalculateChecksum | BankOCR/AccountValidator.cs:9-22 | a length other than 9 gives InvalidLength; otherwise the downward loop's result is the checksum (weighted sum, truncating mod 11) |
| AccountValidator.ValidateNumber | BankOCR/AccountValidator.cs:24-28 | InvalidLength when the length is not 9; otherwise true exactly when the checksum is 0 |
| AccountValidator.FixesFor | BankOCR/AccountValidator.cs:44-53 | one non-empty alternative row per position, namely the confusion-table row of that position's digit |
| AccountValidator.FindPossibleFixes | BankOCR/AccountValidator.cs:44-53 | a digit outside 0..9 gives IndexOutOfRange; otherwise each position is keyed to the table row of its digit |
| AccountValidator.TableReflexiveExceptNine | BankOCR/AccountValidator.cs:30-42 | every digit's row contains the digit itself, except 9's row {3, 5, 8} |
| AccountValidator.CreatePossibilities | BankOCR/AccountValidator.cs:72-110 | the odometer emits exactly the Cartesian product of the fixes in lexicographic order, last key fastest; each emitted array is number with the first keys replaced |
| AccountValidator.Advance | BankOCR/AccountValidator.cs:93-106 | one odometer step (increment the last key, carry leftwards, reset the keys passed) keeps the indices in range and raises their rank by exactly one |
| AccountValidator.KeepValid | BankOCR/AccountValidator.cs:61 | the kept candidates are exactly the valid ones, and there are no more of them than candidates |
| AccountValidator.KeepValidAppend | BankOCR/AccountValidator.cs:61 | filtering keeps generation order: an appended candidate is appended to the result exactly when it is valid |
| AccountValidator.TryFixInvalidNumber | BankOCR/AccountValidator.cs:55-64 | InvalidLength for a length other than 9; IndexOutOfRange for a non-digit; otherwise the valid combinations, in generation order |
| AccountValidator.RepairSound | BankOCR/AccountValidator.cs:55-64 | every repair has nine entries, passes the checksum, and takes at each position a look-alike of the original digit |
| AccountValidator.RepairComplete | BankOCR/AccountValidator.cs:55-64 | every valid nine-entry number made of look-alikes of the original digits is among the repairs |
| CandidateSpace.Cartesian | BankOCR/AccountValidator.cs:72-110 | the product has as many entries as the product of the row sizes, each as long as the number of rows |
| CandidateSpace.CartesianAt | BankOCR/AccountValidator.cs:83-91 | the candidate at the rank of an index vector is the vector's pick from each row |
| CandidateSpace.CartesianComplete | BankOCR/AccountValidator.cs:72-110 | every pick of one alternative per key is generated |
| CandidateSpace.CartesianMember | BankOCR/AccountValidator.cs:85-88 | every generated candidate takes at key k a member of row k |
| CandidateSpace.RankBound | BankOCR/AccountValidator.cs:72-110 | the rank of a valid index vector is below the number of combinations |
| CandidateSpace.RankOfZeros | BankOCR/AccountValidator.cs:75 | the all-zero start vector is valid and has rank 0 |
| CandidateSpace.RankSuccessor | BankOCR/AccountValidator.cs:93-104 | incrementing a key whose followers are all at their maximum, and resetting those followers, raises the rank by one |
| CandidateSpace.RankOfLast | BankOCR/AccountValidator.cs:105 | the vector whose every key is at its maximum, where the carry runs off the left end, has the last rank |
| CandidateSpace.RankIncreasing | BankOCR/AccountValidator.cs:72-110 | lexicographically smaller index vectors have smaller rank (generation order is lexicographic) |
| CandidateSpace.RankInjective | BankOCR/AccountValidator.cs:72-110 | distinct index vectors have distinct ranks, so no combination is emitted twice |
| CandidateSpace.Possibilities | BankOCR/AccountValidator.cs:80-91 | one candidate per combination, each as long as number |
| RepairCount.CompletionsPrepend | BankOCR/AccountValidator.cs:93-106 | the candidates (with one key prepended) that reach a residue are counted from the tail's per-residue counts |
| RepairCount.HistogramStep | BankOCR/AccountValidator.cs:55-110 | the per-residue candidate counts for keys k.. follow from those for keys k+1.. and row k |
| RepairCount.KeepValidCount | BankOCR/AccountValidator.cs:61 | the number of kept candidates is the number whose weighted sum is 0 mod 11 |
| RepairCount.RepairCountIsHistogram | BankOCR/AccountValidator.cs:55-64 | the number of repairs is the residue-0 entry of the per-residue counts of the fixes |
| ValidatorExamples.ChecksumCases | BankOCR.Tests/AccountValidatorTests.cs:9-34 | nine 1s have checksum 1 and are invalid; 111111110 and 987654020 have checksum 0 and are valid |
| ValidatorExamples.OnesRepairCount | BankOCR.Tests/AccountValidatorTests.cs:36-43 | nine 1s have exactly 47 repairs |
| ValidatorExamples.SevensRepairLikeOnes | BankOCR.Tests/AccountValidatorTests.cs:45-52 | nine 7s have exactly the repairs of nine 1s, hence 47 |
| ValidatorExamples.ThreesRepairCount | BankOCR.Tests/AccountValidatorTests.cs:63-70 | nine 3s have exactly 47 repairs |
| ValidatorExamples.TwoThenZerosRepairCount | BankOCR.Tests/AccountValidatorTests.cs:54-61 | 200000000 has exactly 23 repairs (the test at these lines expects 47; see Left out) |

## Left out

- `BankOCR/AccountReader.cs` and `BankOCR/Program.cs` are not part of this model. They do file and console I/O, and call converter methods that do not exist in `OCRConverter.cs`.
- No repair path for illegible glyphs is modelled. A `BadValue` digit reaching `TryFixInvalidNumber` indexes `_matchTable` out of range, and the model returns `IndexOutOfRange` for it, as the code does.
- `Environment.NewLine` is the parameter `nl` (its length) in the converter and a `newline` string in the examples. The platform's actual value is not modelled.
- Arrays and lists that the source returns are returned as their contents (`seq<int>`, `seq<seq<int>>`). Aliasing of the returned arrays is not modelled.
- The `Dictionary<int, int[]>` of fixes is modelled as a sequence keyed by position 0..n-1. That is the only shape `FindPossibleFixes` builds.
- The `IndexPair` objects are modelled as a local sequence of their `Index` values, where the `Key` is the position. Their object identity is not modelled.
- CalculateChecksum: does not model 32-bit overflow of the accumulator. With nine entries the sum stays far below 2^31 for any digit input. Arbitrary `int` entries could overflow in C#, and the model uses unbounded integers there.
- CreatePossibilities: requires at least one key with a non-empty row, and at most nine keys. With no keys, line 94 indexes -1. With an empty row, line 87 reads out of range. More than nine keys would write past the nine-entry array. The only caller, `TryFixInvalidNumber`, always passes nine non-empty table rows.
- Some tests are not modelled as lemmas, because the code does not satisfy them:
  - The glyph tests for digits 2–9 (`BankOCR.Tests/OCRConversionTests.cs:37-142`) omit the final newline, so the length check rejects their input.
  - The repair tests for eights through nines (`BankOCR.Tests/AccountValidatorTests.cs:72-115`) expect 47, but their candidate spaces give other counts.
  - The test `FixesInvalid2kNumber` (`BankOCR.Tests/AccountValidatorTests.cs:54-61`) also expects 47. `ValidatorExamples.TwoThenZerosRepairCount` proves that the code yields 23. The model follows the code.
- `ToValue` in the tests uses floating-point `Math.Pow`. The model uses an integer power of ten.
- The commented-out examples at `BankOCR.Tests/OCRConversionTests.cs:159-286` are not assertions and are not modelled.
