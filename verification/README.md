# IntegerInBase in Dafny

A model of `IntegerInBase` from the `NumberSystemApp` console program. The class
holds a non-negative integer written in a radix from 2 to 36. It keeps the
digits least significant first, each in `[0, base)`. The symbols are `0`-`9`
for 0-9 and `A`-`Z` for 10-35, and lower-case input is read as upper case.
The class does five things:

- **parse** (the constructor): check the base, then read a numeral;
- **render** (`ToString`): write the numeral back out;
- **evaluate** (`ToDecimal`): compute Σ digits[i]·base^i;
- **convert** (`FromDecimal`): turn a native integer into a number in a given
  base by repeated mod/div, spell the digits, and re-parse them;
- **operate**: `+ - * / %` need operands of the same base. They compute on
  the native values and convert the result back. `Equals`, the hash and the
  four comparisons look only at the native values.

Modules:

- `Alphabet` (alphabet.dfy): the 36 symbols, ASCII upper-casing, and the
  symbol/value bijection.
- `Int32` (int32.dfy): the host's 32-bit integer, meaning two's-complement
  wrap-around and division that truncates toward zero.
- `Positional` (positional.dfy): the value of a digit sequence, computed two
  ways (an accumulated power sum and Horner's rule), and the mod/div
  expansion of a value into digits.
- `NumberSystem` (number_system.dfy): the `IntegerInBase` datatype, the
  error kinds, parse, render, evaluate and convert.
- `Operators` (operators.dfy): arithmetic, `Equals`, the hash code and the
  comparisons.
- `Examples` (examples.dfy): concrete cases, proved.

Failures are values of `Result`, not exceptions. The error kinds are
`InvalidBase`, `InvalidChar`, `DigitOutOfRange`, `MismatchedBase` and
`DivisionByZero`. `Equals(object)` takes an `Option`: `None` stands for `null`
or an object of another type, and for those the answer is `false`.

Three behaviours of the code are easy to miss. The model keeps all three:

- The constructor accepts the empty string (1.cs:22-38): the loop runs no
  times, so the number has no digits, evaluates to 0 and renders as "".
  `FromDecimal`, by contrast, writes zero as the single digit 0
  (1.cs:78-79).
- For a negative argument, `FromDecimal` skips its loop (1.cs:81), spells
  "" and re-parses it, so the result has no digits. A subtraction with a
  negative result therefore yields a digit-less number that renders as ""
  and equals 0.
- Leading zeros are kept as given (1.cs:35). "007" is stored as
  `[7, 0, 0]`. It equals "7" under `Equals` but is a different digit
  sequence.

## Model

| member | source | states |
|---|---|---|
| Alphabet.DigitChar | 1.cs:47-50 | the rendered character of a digit is a symbol whose parsed value is that digit again, and upper-casing leaves it unchanged |
| Alphabet.SymbolRoundTrip | 1.cs:25-28 | every symbol is the rendered character of its own parsed value, so parsing and rendering one symbol are mutually inverse |
| Alphabet.UpperIdempotent | 1.cs:22 | upper-casing a string twice gives the same result as upper-casing it once |
| NumberSystem.ParseIgnoresCase | 1.cs:22-33 | a numeral and its upper-cased form construct the same number, or fail with the same error |
| Int32.Wrap | 1.cs:63-64 | a 32-bit result is in the int range, has the same bit pattern as the exact result, and equals the exact result whenever that fits |
| Int32.TruncDiv | 1.cs:135 | the quotient's magnitude is the number of whole divisors in the dividend's magnitude, and it is negative only when the operands' signs differ |
| Int32.TruncRem | 1.cs:145 | the remainder together with the truncating quotient gives back the dividend, is smaller than the divisor in magnitude, and has the dividend's sign |
| Int32.TruncAgreesOnNaturals | 1.cs:135-145 | for a non-negative dividend and a positive divisor, truncating `/` and `%` agree with Euclidean division |
| Positional.PositionalSum | 1.cs:56-68 | n digits of base b have a value in [0, b^n) |
| Positional.PositionalSumIsHorner | 1.cs:56-68 | the running-power sum equals the Horner evaluation of the same digits |
| Positional.LeadingZeroNeutral | 1.cs:61-65 | a zero added as a new top digit does not change the value |
| Positional.DivModDigits | 1.cs:78-85 | the mod/div loop yields digits below the base whose value is the input, with a non-zero top digit for a positive input and no digits for an input at or below zero |
| Positional.DivModDigitsOfValue | 1.cs:78-85 | a digit sequence without a leading zero is exactly what the mod/div loop produces from its value, so such sequences are unique per value |
| NumberSystem.ParseDigits | 1.cs:22-36 | reading succeeds exactly when every upper-cased character is a symbol below the base; on success there is one digit per character, in reverse order; on failure the error names the first bad character, as `InvalidChar` or `DigitOutOfRange` |
| NumberSystem.Parse | 1.cs:14-39 | construction fails with `InvalidBase` exactly when the base is outside [2, 36]; it succeeds exactly when the base is valid and the numeral reads; a constructed number keeps the base, is valid, has as many digits as the input has characters (empty input and leading zeros included), and stores the digits in reverse order |
| NumberSystem.Spell | 1.cs:88-94 | spelling gives one symbol per digit, most significant first, and each symbol's value is the matching digit |
| NumberSystem.Render | 1.cs:42-53 | the rendered string has one upper-case symbol per stored digit |
| NumberSystem.ParseSpell | 1.cs:87-96 | parsing the spelled digits in their base gives exactly those digits back, which is the re-parse `FromDecimal` relies on |
| NumberSystem.RenderParse | 1.cs:22-53 | rendering a parsed numeral gives back the upper-cased input |
| NumberSystem.ParseRender | 1.cs:22-53 | parsing a rendered valid number in its own base gives back the same number |
| NumberSystem.ToDecimal | 1.cs:56-68 | the value of a valid number lies in [0, base^digits), and a number with no digits is 0 |
| NumberSystem.ToDecimal32 | 1.cs:56-68 | the 32-bit accumulator loop returns the 32-bit wrap of Σ digits[i]·base^i, and so the exact value whenever that fits in an int |
| NumberSystem.LeadingZerosKeepValue | 1.cs:61-65 | leading zeros kept by parsing do not change the value |
| NumberSystem.NativeDigits | 1.cs:76-85 | the digits collected for v are below the base; zero gives exactly [0]; a positive v gives digits without a leading zero whose value is v; a negative v gives none |
| NumberSystem.FromDecimal | 1.cs:71-97 | conversion fails, with `InvalidBase`, exactly when the base is outside [2, 36]; a converted value v >= 0 evaluates back to v, in the requested base, with no leading zero and [0] for zero; a negative v gives no digits, renders "" and evaluates to 0 |
| NumberSystem.FromDecimalOfValue | 1.cs:71-97 | converting a valid number's value into its own base gives back that same number exactly when its digits have no leading zero and are not empty |
| NumberSystem.FromDecimalInjective | 1.cs:71-97 | two non-negative values converted into one base give the same number exactly when they are equal |
| Operators.Apply | 1.cs:100-147 | an operator fails with `MismatchedBase` when the bases differ; `/` and `%` fail with `DivisionByZero` when the divisor is 0; nothing else fails; a result is in the left operand's base, and its value is the native result when that is non-negative; a negative result has no digits |
| Operators.QuotientRemainder | 1.cs:130-147 | for one base and a non-zero divisor, the quotient times the divisor plus the remainder gives the dividend, and the remainder is below the divisor |
| Operators.SubtractUndoesAdd | 1.cs:100-117 | subtracting b from a + b gives back the value of a |
| Operators.NegativeDifference | 1.cs:110-117 | a difference below zero has no digits, renders as "" and evaluates to 0 |
| Operators.Commutative | 1.cs:100-127 | `+` and `*` give the same number, digit for digit, whichever way round the operands are |
| Operators.EqualsIsEquivalence | 1.cs:150-159 | `Equals` is reflexive, symmetric and transitive and is false for a non-number; equal numbers have equal hash codes |
| Operators.ComparisonsAreConsistent | 1.cs:161-183 | exactly one of `<`, `Equals`, `>` holds; `>=` is the negation of `<`; `<=` is the negation of `>`; `a < b` is `b > a` |
| Operators.ComparisonsRespectEquals | 1.cs:150-183 | replacing a number by an equal one (any base, any leading zeros) changes no equality, comparison or hash result |
| Operators.ConversionKeepsValue | 1.cs:210-214 | converting a number into another valid base succeeds, lands in that base and gives an equal number |
| Operators.WrappedComparisonsAgree | 1.cs:150-183 | while both values fit in an int, equality, the four comparisons and the hash on the 32-bit results of `ToDecimal` agree with the exact ones |
| Operators.WrappedEqualityDiverges | 1.cs:150-154 | "100000000" in base 16 is 2^32, whose 32-bit result equals that of "0", although the exact values differ |
| Operators.EqualsOnCanonical | 1.cs:150-154 | for same-base numbers without leading zeros, `Equals` holds exactly when the digits are identical |
| Examples.CrossBaseEquality | 1.cs:150-154 | "FF" in base 16 and "255" in base 10 are both 255 and are equal; "ff" reads as "FF" |
| Examples.ParseErrors | 1.cs:16-33 | "G" in base 16 and "2" in base 2 give `DigitOutOfRange`; bases 1 and 37 give `InvalidBase`; "1-2" gives `InvalidChar('-')`; the first bad character decides the error |
| Examples.EmptyAndLeadingZeros | 1.cs:22-38 | "" parses to no digits, renders as "" and is 0; "007" keeps its zeros, renders as "007" and equals 7 |
| Examples.FromDecimalCases | 1.cs:71-97 | 0 converts to [0], -5 to no digits, 255 in base 16 to "FF", and base 37 is refused |
| Examples.DecimalSumCase | 1.cs:100-107 | "12" + "7" in base 10 is "19" |
| Examples.HexSumCase | 1.cs:100-107 | "A" + "5" in base 16 is "F" |
| Examples.QuotientCase | 1.cs:130-137 | "17" / "5" in base 10 is "3" |
| Examples.RemainderCase | 1.cs:140-147 | "17" % "5" in base 10 is "2" |
| Examples.NegativeDifferenceCase | 1.cs:110-117 | "3" - "5" in base 10 has no digits |
| Examples.OperatorErrors | 1.cs:130-147 | dividing or taking the remainder by zero gives `DivisionByZero`; adding a base-10 and a base-16 number gives `MismatchedBase` |
| Examples.ComparisonCase | 1.cs:167-177 | "10" in base 2 is less than "3" in base 10 |

Some members are plain definitions with no row. Their properties are stated
by the rows above:

- `Equals`, `HashCode`, `Greater`, `Less`, `AtLeast` and `AtMost`
  (1.cs:150-183), stated by the `Operators` lemmas.
- `Native` (1.cs:105-145), stated by `Apply`.
- `Alphabet.SymbolValue` (1.cs:25-28), stated by `DigitChar` and
  `SymbolRoundTrip`.
- `Alphabet.UpperChar` and `Alphabet.Upper` (1.cs:22), stated by
  `UpperIdempotent`, `ParseIgnoresCase` and `RenderParse`.

## Left out

- `Program.Main` (1.cs:186-233): console input and output, `int.Parse` of the
  bases, the output encoding and `ReadKey`. Its one computation, converting
  the second operand into the first one's base, is `ConversionKeepsValue`.
- NumberSystem.ToDecimal: evaluates with exact integers. The source
  accumulates in a 32-bit `int` that wraps silently. `ToDecimal32` models that
  loop exactly and shows the two agree whenever the value fits in an int.
- Operators.Apply: computes the native result with exact integers. In the
  source, `+`, `-` and `*` wrap on 32-bit overflow, and a wrapped negative sum
  would then convert to a number with no digits. The model matches the
  source whenever the operands' values and the result fit in an int.
- Operators.Equals, and with it `HashCode`, `Greater`, `Less`, `AtLeast` and
  `AtMost`: these compare exact values. The source compares the 32-bit
  results of `ToDecimal`, so beyond the int range two different values can
  compare equal, or a large value can compare below 0.
  `WrappedComparisonsAgree` shows the two agree on the int range, and
  `WrappedEqualityDiverges` gives a case outside it.
- Operators.EqualsOnCanonical: holds of the exact values. In the source it
  holds only while both values fit in an int.
- NumberSystem.FromDecimal: takes an unbounded integer where the source takes
  a 32-bit `int`. The two are the same on the int range.
- NumberSystem.Parse: upper-cases ASCII letters only and treats only `0`-`9`
  as decimal digits. The source uses culture-sensitive `ToUpper`, which for
  example maps the dotless `ı` to `I`, and Unicode `char.IsDigit`. Any other
  Unicode decimal digit is rejected by the source with a digit-out-of-range
  error (its value `c - '0'` is at least 36). The model rejects it with
  `InvalidChar`.
- NumberSystem.Parse: takes a string value, so a `null` numeral cannot be
  expressed. In the source, `numberStr.ToUpper()` (1.cs:22) throws
  `NullReferenceException` for `null`, which `ReadLine` returns at the end
  of input.
- Exception types and their (Russian) messages become `Error` values. The
  error carries the offending character, digit or base.
- `GetHashCode` is modelled as the value itself, since a native `int` hashes
  to itself. No other hashing detail is modelled.
- The missing `using System.Text` for `StringBuilder` and `Encoding` is a
  compile detail, not behaviour.
