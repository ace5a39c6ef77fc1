# Verified model of an arbitrary-precision unsigned integer (`bigint`)

This project models the `bigint` value type of `bigint.cpp` in Dafny and proves
its operations correct against ordinary natural-number arithmetic.

A `bigint` holds a vector of limbs, least significant first. The limb base is
`BASE = 10`. The number of decimal digits per limb, `NUMBER_OF_ZEROS`, is
computed by `logarifm10(BASE)` and equals 1, so every limb is one decimal digit.
The model follows the same structure:

- `Wrappers` (wrappers.dfy) has the `Option` type, which stands in for a thrown exception.
- `Limbs` (limbs.dfy) has the base, `Pow10`, and `Logarithm10` with its constant
  `NumberOfZeros`. It also has the abstraction function `LimbsValue`, which maps
  limbs to Σ limbs[i]·10^i, and the representation invariant `Canonical`: at
  least one limb, every limb below 10, and no zero top limb except in `[0]`.
  The datatype `BigInt` carries `Valid()` and `Value()`. `CanonicalUnique`
  proves that a value has only one canonical limb sequence.
- `Conversions` (conversions.dfy) has the `unsigned int` constructor and the
  explicit cast back to `unsigned int`. The cast writes out 32-bit wrap-around:
  both `result += limb * current_base` and `current_base *= BASE` are reduced
  modulo 2^32.
- `Text` (text.dfy) has `to_string` and the string constructor. The
  constructor strips the maximal leading `'0'` run, reads an empty remainder as
  `"0"`, and chunks from the right. `Stoi` models `std::stoi` and returns
  `None` where the C++ code would throw. The chunk loop calls it on every
  chunk and stores the `int` it returns converted to `unsigned int`.
- `Comparison` (comparison.dfy) has the six relational operators.
- `Arithmetic` (arithmetic.dfy) has `+=`/`+` with carry propagation and
  `-=`/`-` with borrow propagation and top-zero trimming. It also has the
  prefix and postfix `++` and `--`, and the algebraic laws.
- `InPlace` (inplace.dfy) has `+=` and `-=` as loops that update the limb
  vector position by position, proved equal to the functional definitions.
- `Scenarios` (scenarios.dfy) has concrete cases: 999 + 1, 1000 − 1,
  `"0005"`, 10 > 9 and 5++.

Each compound assignment is a value-to-value function that returns the new
value of its left operand. `a + b` and `a - b` apply the same function to a
copy, so they leave both operands unchanged by construction. An increment or
decrement returns a `Step`. `Step.variable` is the variable's new value and
`Step.returned` is the value the expression yields.

Chunk width and pad width are parameters of `Chunks` and `Pad`.
`FromString` and `ToString` call them with `NumberOfZeros`, and
`NumberOfZerosIsOne` fixes that constant at 1.

`logarifm10` is not a base-10 logarithm in general: it returns 2 for 11 and 1 for 1. It
does return the exponent for every power of ten 10^m with m ≥ 1 (`Logarithm10OfPowerOfTen`),
and it is only applied to `BASE = 10`.

## Model

| member | source | states |
|---|---|---|
| Limbs.Logarithm10 | bigint.cpp:8-15 | the result r is at least 1, and it is the least r with n < 11·10^(r−1) |
| Limbs.Logarithm10OfPowerOfTen | bigint.cpp:8-15 | for every power of ten 10^m with m ≥ 1 the helper returns m |
| Limbs.NumberOfZerosIsOne | bigint.cpp:6-17 | `NUMBER_OF_ZEROS = logarifm10(BASE)` is 1, so every limb is a single decimal digit |
| Limbs.CanonicalUnique | bigint.cpp:21-23 | two canonical limb vectors denoting the same number are identical |
| Limbs.Extensionality | bigint.cpp:21-23 | two canonical big integers with the same value are the same big integer, which is why the limb-wise `==` compares numbers |
| Conversions.NatLimbs | bigint.cpp:26-33 | the `% BASE` / `/ BASE` loop yields a canonical vector whose value is the input |
| Conversions.FromUInt | bigint.cpp:26-33 | the constructor from `unsigned int` yields a canonical value equal to n, and yields exactly `[0]` for 0 |
| Conversions.WrapAccumulate | bigint.cpp:80-86 | the wrapping 32-bit accumulation loop computes (acc + power·value) mod 2^32 |
| Conversions.ToUInt32 | bigint.cpp:79-87 | the cast returns the value modulo 2^32, which is the value itself when it fits |
| Conversions.UIntRoundTrip | bigint.cpp:79-87 | casting the construction from n gives back n |
| Conversions.FromUIntOfValue | bigint.cpp:26-33 | constructing from the cast of a canonical value below 2^32 gives back that value |
| Text.Pad | bigint.cpp:64-71 | the padded limb has length max(width, its own length), ends with the limb's digits, and is '0' before them |
| Text.DecimalString | bigint.cpp:62 | `std::to_string` on a limb gives digits with no leading zero whose decimal value is the limb |
| Text.RenderLower | bigint.cpp:61-75 | the padded lower limbs render as digits only, at least one character per limb |
| Text.Render | bigint.cpp:58-77 | the rendering is digits only, at least one character per limb, and starts with a non-'0' character when the top limb is non-zero |
| Text.RenderIsDigitChars | bigint.cpp:58-77 | with one-digit limbs, rendering the top limb unpadded and the rest padded yields the limbs' digits, top first |
| Text.ToString | bigint.cpp:58-77 | `to_string` yields a digit string with no leading zero (except "0"), one digit per limb, whose decimal value is the value |
| Text.StripLeadingZeros | bigint.cpp:36 | the regex replacement removes exactly the maximal leading '0' run, and the rest does not start with '0' |
| Text.ParsedLine | bigint.cpp:36-40 | the chunked line has no leading zero (or is "0"), has the input's value, is digits iff the input is, and is the input itself when the input has no leading zero |
| Text.Stoi | bigint.cpp:44-48 | `std::stoi` (leading whitespace, optional sign, longest digit run, failure on no digit or on leaving `int`) only ever yields a value within `int` |
| Text.StoiOfDigits | bigint.cpp:44-48 | on a non-empty digit string whose value fits in `int`, `std::stoi` yields that decimal value |
| Text.StoiUnsigned | bigint.cpp:44-48 | on a string with no leading whitespace or sign, `std::stoi` yields the value of its leading digit run when that value fits in `int` |
| Text.StoiOneCharacter | bigint.cpp:44-48 | on a one-character string `std::stoi` succeeds iff the character is a digit, and then yields the digit's value |
| Text.OneCharacterChunk | bigint.cpp:46-48 | the one-character chunk ending at position i parses iff that character is a digit, and then parses to the digit's value |
| Text.ToUnsigned | bigint.cpp:44-48 | storing `std::stoi`'s `int` in the `unsigned int` vector gives a value below 2^32, which is the `int` itself when it is not negative |
| Text.Chunks | bigint.cpp:41-51 | the right-to-left loop that calls `std::stoi` on each chunk of the first i characters yields between 1 and i limbs when it succeeds, and with one-character chunks it succeeds iff those characters are all digits |
| Text.ChunksOfDigits | bigint.cpp:41-51 | when the first i characters are all digits, the one-character chunk loop yields their digit values least significant first |
| Text.ChunksAreDigitLimbs | bigint.cpp:41-51 | with one-digit chunks the loop yields the digits least significant first, and fails iff a character is not a digit |
| Text.FromString | bigint.cpp:35-52 | the string constructor succeeds iff every character is a digit, and then yields a canonical value equal to the string's decimal value |
| Text.ParseRender | bigint.cpp:35-52 | parsing the rendering of a canonical value gives the value back |
| Text.RenderParse | bigint.cpp:58-77 | rendering the parse of a digit string with no leading zero (or "0") gives the string back |
| Text.LeadingZerosIgnored | bigint.cpp:36-39 | prefixing any number of '0' characters does not change the parse |
| Comparison.CompareFromTop | bigint.cpp:132-140 | the top-down limb scan reports below/above exactly when the prefix value is smaller/larger |
| Comparison.TopLimbDecides | bigint.cpp:132-139 | for equal lengths a larger top limb means a larger number, and equal top limbs defer to the lower limbs |
| Comparison.LengthDecides | bigint.cpp:129-131 | for canonical operands of different lengths, the longer one is the larger number |
| Comparison.Equal | bigint.cpp:120-122 | limb-vector equality holds iff the values are equal |
| Comparison.NotEqual | bigint.cpp:124-126 | `!=` holds iff the values differ |
| Comparison.Greater | bigint.cpp:128-141 | `>` (length first, then limbs from the top) holds iff the first value is larger |
| Comparison.Less | bigint.cpp:143-156 | `<` (length first, then limbs from the top) holds iff the first value is smaller |
| Comparison.GreaterOrEqual | bigint.cpp:158-160 | `>=` holds iff the first value is at least the second |
| Comparison.LessOrEqual | bigint.cpp:162-164 | `<=` holds iff the first value is at most the second |
| Comparison.Trichotomy | bigint.cpp:120-156 | exactly one of `<`, `==`, `>` holds |
| Comparison.LessIsConverseOfGreater | bigint.cpp:128-156 | `a < b` holds iff `b > a` |
| Arithmetic.AddCarry | bigint.cpp:180-191 | with limbs below 10 and an incoming carry of 0 or 1, every carry passed on is 0 or 1, every stored limb is below 10, and the vector grows by one limb only by pushing a final carry of 1 |
| Arithmetic.AddCarryValue | bigint.cpp:180-191 | the limbs the carry loop stores, followed by the pushed final carry, denote a + b + carry |
| Arithmetic.Extend | bigint.cpp:172-178 | zero-extension keeps the low limbs and the value and reaches b's length |
| Arithmetic.CanonicalSum | bigint.cpp:166-193 | limbs below 10 denoting the sum of two canonical values, as long as the longer operand or one longer with top limb 1, have no zero top limb |
| Arithmetic.SumIsCanonical | bigint.cpp:166-193 | the result of `+=` has no zero top limb |
| Arithmetic.Add | bigint.cpp:166-199 | `+=` and `+` yield a canonical value equal to the sum |
| Arithmetic.SubBorrow | bigint.cpp:218-232 | the borrow loop stores exactly one limb per limb of a, each below 10 when a's limbs are |
| Arithmetic.SubBorrowHead | bigint.cpp:219-231 | one position stores a[i] − b[i] − borrow plus 10 times the outgoing borrow, followed by the rest of the pass |
| Arithmetic.SubBorrowCorrect | bigint.cpp:218-232 | when a ≥ b + borrow, the borrow loop yields limbs below 10 denoting a − b − borrow |
| Arithmetic.TrimZeros | bigint.cpp:233-237 | the trim loop removes only zero limbs from the top, keeps at least one limb, leaves no zero top limb above index 0, and keeps the value |
| Arithmetic.DifferenceIsCanonical | bigint.cpp:212-240 | for canonical a ≥ b, borrowing then trimming yields a canonical vector denoting a − b |
| Arithmetic.Subtract | bigint.cpp:212-246 | for a ≥ b, `-=` and `-` yield a canonical value equal to the difference |
| Arithmetic.One | bigint.cpp:202 | `bigint(1)` is canonical with value 1 |
| Arithmetic.PreIncrement | bigint.cpp:201-204 | `++a` raises the value by one and yields the updated variable |
| Arithmetic.PostIncrement | bigint.cpp:206-210 | `a++` raises the value by one and yields the old value |
| Arithmetic.PreDecrement | bigint.cpp:248-251 | for a ≥ 1, `--a` lowers the value by one and yields the updated variable |
| Arithmetic.PostDecrement | bigint.cpp:253-257 | for a ≥ 1, `a--` lowers the value by one and yields the old value |
| Arithmetic.AddCommutative | bigint.cpp:195-199 | a + b = b + a |
| Arithmetic.AddAssociative | bigint.cpp:195-199 | (a + b) + c = a + (b + c) |
| Arithmetic.AddZeroIdentity | bigint.cpp:195-199 | a + bigint(0) = a |
| Arithmetic.AddThenSubtract | bigint.cpp:242-246 | (a + b) − b = a |
| Arithmetic.SubtractThenAdd | bigint.cpp:242-246 | for a ≥ b, (a − b) + b = a |
| Arithmetic.DecrementAfterIncrement | bigint.cpp:201-251 | `--(++a)` leaves a |
| Arithmetic.IncrementAfterDecrement | bigint.cpp:201-251 | for a ≥ 1, `++(--a)` leaves a |
| Arithmetic.PrefixPostfixAgree | bigint.cpp:201-257 | the prefix and postfix forms leave the variable in the same state |
| InPlace.StoreAdvances | bigint.cpp:187 | storing a computed limb at position i extends the finished prefix by one limb |
| InPlace.AddCarryStep | bigint.cpp:180-188 | one iteration of the carry loop is one unfolding of the carry recursion |
| InPlace.CarryAdvances | bigint.cpp:180-188 | one iteration of the carry loop keeps the invariant: the finished prefix plus the remaining recursion is the full result, the unvisited limbs are ext's, and the carry stays 0 or 1 |
| InPlace.CarryPass | bigint.cpp:179-188 | the in-place carry loop computes the carry recursion's limbs and final carry |
| InPlace.AddAssign | bigint.cpp:166-193 | the in-place `+=` equals the functional addition |
| InPlace.SubBorrowStep | bigint.cpp:219-231 | one iteration of the borrow loop is one unfolding of the borrow recursion |
| InPlace.BorrowAdvances | bigint.cpp:219-231 | one iteration of the borrow loop keeps the invariant: the finished prefix plus the remaining recursion is the full result, the unvisited limbs are a's, and the borrow stays 0 or 1 |
| InPlace.BorrowPass | bigint.cpp:218-232 | the in-place borrow loop computes the borrow recursion |
| InPlace.TrimPass | bigint.cpp:233-237 | the in-place pop-while-zero loop computes the trim |
| InPlace.SubtractAssign | bigint.cpp:212-240 | the in-place `-=` equals the functional subtraction |
| Scenarios.CarryIntoNewLimb | bigint.cpp:166-193 | 999 + 1 renders as "1000" |
| Scenarios.BorrowTrimsTopLimb | bigint.cpp:212-240 | 1000 − 1 renders as "999" |
| Scenarios.SmallerLeftOperand | bigint.cpp:218-237 | for a smaller left operand the loops still end, with a value that is not the difference: `--bigint(0)` leaves 9 and 5 − 10 leaves 5 |
| Scenarios.LeadingZerosParse | bigint.cpp:35-52 | `bigint("0005") == bigint(5)` |
| Scenarios.TenAboveNine | bigint.cpp:128-156 | 10 > 9 and 9 < 10 |
| Scenarios.IncrementFive | bigint.cpp:201-210 | `5++` leaves 6 and yields 5, and `++5` yields 6 |

## Left out

- Stream operators `<<` and `>>` (bigint.cpp:259-269): these are I/O plumbing. `<<` writes `to_string`, and `>>` passes one token to the string constructor, which is modelled.
- `int_size` (bigint.cpp:54-56) is the limb count, written `|limbs|` in the model. Its cast to 32-bit `int`, which overflows beyond 2^31 limbs, is not modelled. Neither are the other `int` loop indices.
- The regular-expression engine is not modelled. The replacement of `^0+` is modelled directly as removal of the maximal leading `'0'` run.
- `std::stoi` is modelled by `Text.Stoi`, with `None` in place of the exceptions it throws. The exception itself is not modelled. Whitespace follows `isspace` in the C locale. `Text.Chunks` calls `Stoi` on every chunk, as the constructor does.
- Text.Chunks: its success is characterised only for one-character chunks, the width `NUMBER_OF_ZEROS = 1` gives. A wider chunk would also parse with leading whitespace, a sign or trailing non-digits, because `std::stoi` accepts those, so "succeeds iff all digits" does not hold for it.
- Subtraction, `-=` and `--` require the left value to be at least the right one. For a smaller left operand the source's loops return a deterministic value that is not the difference (for example `--bigint(0)` leaves 9, and `bigint(5) - bigint(10)` leaves 5). `Arithmetic.Subtract` does not model that case. `Scenarios.SmallerLeftOperand` exhibits those two results on the loop functions themselves.
- Bases other than 10 are not modelled, and neither is a `NUMBER_OF_ZEROS` other than 1. Chunk width and pad width are parameters of the loops, but the correctness lemmas hold for width 1 only.
- `Limbs.Logarithm10` takes an unbounded integer instead of a 32-bit `int`. It is only applied to 10.
- The constructor's default argument 0 is `FromUInt(0)`. There is no separate default constructor.
- Comparison.Greater: stated for canonical operands only. The C++ operator accepts any limb vector, but every `bigint` the constructors and operators produce is canonical. The same holds for Comparison.Less, Comparison.Equal and the other relational operators.
- Concrete multi-digit sums such as 123456789012345678901234567890 + 1 have no lemma of their own. The general laws `Text.FromString`, `Arithmetic.Add`, `Arithmetic.Subtract` and `Text.ToString` cover them.
