# Iranian national code validator, modelled in Dafny

The validator decides whether a candidate Iranian national identity code is
valid. A candidate arrives as text or as a number. A number is first rendered
as decimal text. The text must be exactly ten ASCII decimal digits. The ten
repdigits ("0000000000" … "9999999999") are rejected outright. The first nine
digits are weighted 10, 9, …, 2 and summed. The sum is reduced modulo 11 to a
remainder `r`. The tenth digit (the control digit) must equal `r` when
`r < 2` and `11 - r` otherwise.

The project has three modules:

- `Decimal` (decimal.dfy): digit characters, the decimal rendering of a
  natural number (`ToDecimal`, what `toString` produces for a non-negative
  integer below 2^53) and its inverse parse (`FromDecimal`), with both round
  trips.
- `Checksum` (checksum.dfy): the weights, the weighted sum (`WeightedSum`,
  defined from the last position; `SumFrom`, an independent definition from
  the first position), the expected control digit, and the facts about them.
  These facts are: the sum bound, that exactly one control digit fits each
  prefix, and that every repdigit satisfies the checksum.
- `Validator` (validator.dfy): the input type `Code = Text | Number`, the two
  regular expressions as sequence predicates (`IsTenDigits`, `IsRepdigit`), the
  reference predicate `ValidSpec`, and the method `NationalCodeValidator`. The
  method follows the source step by step, including the loop over the weight
  table, and is proved equal to `ValidSpec`. The module also holds the
  properties of the whole validator.

The documentation comment at index.ts:7 lists "Not composed of all identical
digits" with "0123456789" in parentheses. The parenthetical is at most
ambiguous: "0123456789" is not a repdigit, and it is in fact a valid code
(weighted sum 156, remainder 2, control digit 9), which
`Validator.ExampleCodes` proves. The model follows the regular expression at
index.ts:42.

The usage example in the same comment (index.ts:30) passes "1234567891". It is
a valid code: its weighted sum is 210, the remainder is 1, and its control
digit is 1. `Validator.ExampleCodes` proves this too.

## Model

| member | source | states |
|---|---|---|
| Validator.NationalCodeValidator | index.ts:37-59 | The validator, written as the source computes it (normalise, shape test, repdigit test, loop over the weight table, remainder, two-branch comparison), returns true exactly when the normalised candidate satisfies `ValidSpec`. The loop invariant ties the running sum to `WeightedSum` of the digits read so far. |
| Decimal.Value | index.ts:45 | Converting a digit character to a number gives a value below 10, and gives 0 exactly for '0'. |
| Decimal.ToDecimal | index.ts:38 | Rendering a number gives a non-empty string of digits with no leading zero (unless the number is 0). For a k-digit rendering, n < 10^k, and 10^(k-1) <= n when k >= 2. |
| Decimal.FromDecimal | index.ts:38 | Parsing k digits gives a number below 10^k, and at least 10^(k-1) when the first digit is not '0'. |
| Decimal.FromToDecimal | index.ts:38 | Parsing the rendering of any natural number gives the number back. |
| Decimal.ToFromDecimal | index.ts:38 | Rendering the parse of a digit string without a leading zero gives the string back. |
| Decimal.TenDigitRange | index.ts:38-40 | The rendering of n is exactly ten characters long if and only if 10^9 <= n < 10^10. |
| Checksum.Weight | index.ts:47 | The weight of position i is one of the table's values, between 2 and 10. |
| Checksum.WeightedSum | index.ts:47-50 | The weighted sum of the first k digits is at most 9 times the sum of their weights. |
| Checksum.SumAgrees | index.ts:47-50 | The weighted sum, defined by peeling off the last position as the left-to-right loop accumulates it, equals the textbook sum over positions 0 … k-1 of digit(i)·(10-i). |
| Checksum.ClosedForm | index.ts:47-50 | For nine digits the weighted sum is 10·d0 + 9·d1 + … + 2·d8. |
| Checksum.SumBound | index.ts:47-50 | The weighted sum of nine digits lies in 0 … 486. |
| Checksum.Remainder | index.ts:52 | The remainder of the weighted sum modulo 11 lies in 0 … 10. |
| Checksum.ExpectedControl | index.ts:52-58 | The expected control digit is a single decimal digit. For every remainder except 1, remainder plus digit is a multiple of 11. The digit is 1 exactly for remainders 1 and 10, and 0 exactly for remainder 0. |
| Checksum.ControlDigit | index.ts:52-58 | Every nine-digit prefix has a control digit, and completing the prefix with it satisfies the checksum. |
| Checksum.UniqueControlDigit | index.ts:52-58 | A digit completes a nine-digit prefix to a checksum-satisfying string if and only if it is that prefix's control digit, so exactly one of the ten digits works. |
| Checksum.RepeatSum | index.ts:47-50 | The weighted sum of k copies of digit d is d times the sum of the first k weights. |
| Checksum.RepdigitChecksum | index.ts:42-58 | Every repdigit "dddddddddd" satisfies the checksum on its own, because the weights sum to 54, which is -1 modulo 11. |
| Validator.RejectsMalformed | index.ts:40 | A candidate whose text is not exactly ten ASCII decimal digits is rejected: wrong length, any non-digit, empty text. |
| Validator.RejectsRepdigits | index.ts:42-43 | The ten-character string made of one repeated digit matches the repdigit test, and it is rejected. |
| Validator.RepdigitIsRepeat | index.ts:42 | A ten-digit string matches the repdigit test if and only if it is ten copies of its first digit. |
| Validator.RepdigitsPassChecksum | index.ts:42-58 | A repdigit satisfies the checksum yet is invalid, so only the explicit repdigit test rejects it. |
| Validator.ControlDigitCases | index.ts:52-58 | For a ten-digit non-repdigit: with remainder below 2 it is valid if and only if the control digit equals the remainder. With remainder 2 or more it is valid if and only if the control digit equals 11 - remainder. With remainder 10 that means control digit '1'. |
| Validator.CompletionExists | index.ts:42-58 | A nine-digit prefix can be completed to a valid code if and only if its nine digits are not all the same. |
| Validator.RejectsShortAndLongNumbers | index.ts:38-40 | A number below 10^9, or of 10^10 or more, is rejected. |
| Validator.LeadingZeroOnlyAsText | index.ts:38-40 | No number renders to a ten-digit text starting with '0', so such codes can only be validated when passed as text. |
| Validator.NumberAgreesWithText | index.ts:38-40 | A ten-digit text without a leading zero is the rendering of the number it denotes, and that number is judged exactly as the text is. |
| Validator.ValidByDigits | index.ts:45-58 | A ten-digit string is valid if and only if it is not a repdigit and its tenth digit is the expected digit for (10·d0 + … + 2·d8) mod 11. |
| Validator.ExampleCodes | index.ts:52-58 | "0499370899" and "0123456789" (remainder 2, complement branch), "1234567891" (remainder 1) and "0100000010" (remainder 0, both direct branch) are valid. |
| Validator.ExampleRemainderTen | index.ts:52-58 | With prefix "100000000" (remainder 10), control digit 1 is accepted and 0 is rejected. |
| Validator.ExampleRejected | index.ts:40-43 | "1111111111", "0000000000", "12345", "12345678901" and "12345abcde" are rejected. |

## Left out

- JavaScript number semantics beyond non-negative integers. Numeric input is a `nat` rendered in plain decimal. Negative numbers, fractions, NaN, Infinity, exponent notation (from 10^21) and precision loss above 2^53 are not modelled. Each of these gives text that fails the ten-digit test or lies far outside ten digits, and every ten-digit number is below 2^53, so it is represented exactly.
- Values of other runtime types (null, undefined, objects) passed in spite of the `string | number` parameter type: the model's input type admits only text and natural numbers.
- The regular expression engine: `/^\d{10}$/` and `/^(\d)\1{9}$/` are stated directly as sequence predicates. `\d` matches only ASCII 0-9. `$` without the `m` flag matches only at the end of the input.
- The module export (index.ts:61) and the usage example in the documentation comment (index.ts:26-34): plumbing and UI.
- Idempotence and determinism are not stated as lemmas: the validator is a pure function of its input, which Dafny's functions and this method are by construction.
