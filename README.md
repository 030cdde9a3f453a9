# pesa PreciseNumber and Money, modelled in Dafny

This project models the core of frappe/pesa, a fixed-point money library.

A `PreciseNumber` holds two private fields:

- an unbounded integer `#value`;
- a count of decimal places `#precision`, between `MIN_PREC` and `MAX_PREC`.

Together they stand for the amount `#value / 10^#precision`. Operands can be decimal text, JavaScript numbers or other instances. They are validated, then scaled to the receiver's precision; the arithmetic and the comparisons work on the scaled integers. `Money` is a `PreciseNumber` that also carries a display precision and a currency code.

Modules:

- `Wrappers` — `Option`, `Result`, `Outcome`, and the error kinds the library throws.
- `Consts` — the precision bounds, the default precision and the default display. `src/consts.ts` is not part of this model, so their values (0, 30, 6 and 3) are chosen here.
- `Digits` — decimal digit strings and natural numbers, powers of ten, dropping and keeping low digits.
- `Utils` — the helpers the class imports from `./utils`: `scaler`, `matchPrecision`, `toDecimalString`, and JavaScript's truncating BigInt division. Their bodies are not in `src/utils.ts`. The behaviour of the scaler and of `toDecimalString` is taken from `tests/preciseNumber/core.spec.ts`; `matchPrecision` has no test there, and its model is a choice (see "## Left out"):
  - The scaler reads an optional `-`, then digits with at most one point.
  - It pads the fraction, or rounds the first discarded digit half away from zero.
  - `matchPrecision` multiplies by a power of ten, or divides by one with truncation.
  - `toDecimalString` prints the minimal decimal text.
- `Rounding` — `#neutralizedMul` as written, which `mul` uses, and its corrected form. Also the text `round(to)` builds.
- `Engine` — the value-level behaviour of every operation on `Fixed(value, precision)`:
  - validation, scaling, the reduce of `#executeOperation` and `#executeComparison`;
  - construction, the static variants, `clip`, and the precision setter (as written, and the rescaling it evidently intends).
- `PreciseNumbers` — the class `PreciseNumber`, with fields `value` and `precision`. Each method is proved against the `Engine` function that specifies it.
- `Monies` — option merging and the class `Money`.
- `Vectors` — the examples in the repository's tests, stated on the model.

An operand (`Engine.Input`) is one of:

- a string (`Text`);
- a finite JavaScript number, given by the decimal text it prints (`Num`);
- `NaN` or one of the two infinities;
- another instance, given by its state (`Instance`).

Failures are `Result` values where the code throws.

## Model

| member | source | states |
|---|---|---|
| Consts.DefaultInRange | src/preciseNumber.ts:128 | the default precision lies within the precision bounds, so the default constructor's precision check passes |
| Engine.JsRound | src/preciseNumber.ts:112 | Math.round gives the integer within half a unit of its argument, halves going up |
| Engine.ValidatePrecision | src/preciseNumber.ts:111-118 | precision is accepted iff its Math.round lies in [MIN_PREC, MAX_PREC]; then the result is that rounded integer, otherwise the error is a precision-out-of-range failure |
| Engine.CheckInputs | src/preciseNumber.ts:29-44 | a list of operands passes iff every operand is valid (0 and any non-empty string, number or instance; not NaN, ±Infinity or the empty string); otherwise it fails with an invalid-value error |
| Engine.Scale | src/preciseNumber.ts:46-52 | definition of #scaleAndConvert on a valid operand; what it yields is stated by Engine.Convert |
| Engine.Convert | src/preciseNumber.ts:189-192 | text converts iff it is non-empty and a plain decimal literal, a number iff its text is one, both to the literal's amount at p places rounded half away from zero; an instance converts to its integer rescaled by matchPrecision; NaN, ±Infinity and the empty string fail with invalid-value, and a valid operand fails only with parse-failure |
| Engine.ScaleAllSpec | src/preciseNumber.ts:46-52 | mapping #scaleAndConvert over the operands succeeds with element i equal to operand i scaled, and fails iff some operand fails to scale |
| Engine.Step | src/preciseNumber.ts:67-80 | definition of one reduce step, with `mul` through #neutralizedMul as written; stated by Engine.FoldOutcome, Engine.MulTwo and Engine.DivTwo |
| Engine.Fold | src/preciseNumber.ts:67-80 | definition of the reduce; stated by Engine.FoldOutcome, Engine.FoldAdd, Engine.FoldSub and Engine.MulFoldAgrees |
| Engine.FoldOutcome | src/preciseNumber.ts:67-80 | the reduce fails iff it divides by a scaled operand equal to 0, and then with division-by-zero; add, sub and mul never fail |
| Engine.Operate | src/preciseNumber.ts:63-85 | definition of #executeOperation on values; stated by Engine.OperateOutcome and the lemmas below it |
| Engine.OperateOutcome | src/preciseNumber.ts:63-85 | an operation fails with invalid-value iff some operand is invalid; otherwise with parse-failure iff some operand does not scale; otherwise iff it divides by an operand scaled to 0, with division-by-zero |
| Engine.FoldAdd | src/preciseNumber.ts:67-70 | the add reduce gives the first scaled amount plus the sum of the rest |
| Engine.FoldSub | src/preciseNumber.ts:67-72 | the sub reduce gives the first scaled amount minus the sum of the rest |
| Engine.InvalidOperandFails | src/preciseNumber.ts:63-64 | any invalid operand makes the operation fail with invalid-value, whatever the operator |
| Engine.LoneReceiver | src/preciseNumber.ts:63-85 | an operation with no operand besides the receiver returns the receiver's amount unchanged, for every operator |
| Engine.OperateKeepsPrecision | src/preciseNumber.ts:82-84 | the result of an operation is at the receiver's precision |
| Engine.MulTwo | src/preciseNumber.ts:75-76 | one multiplication step, as written, is the product divided by 10^p truncated toward zero plus one when its first discarded digit is 5 or more; for a non-negative product that is the non-negative value within half a unit of product / 10^p; for a negative product it is the nearest value plus 2 whenever the +1 applies |
| Engine.MulFoldAgrees | src/preciseNumber.ts:75-76 | when the receiver and every factor are non-negative, mul as written equals the corrected product fold (each step rounded half away from zero) and is non-negative |
| Engine.DivTwo | src/preciseNumber.ts:73-74 | one division step fails with division-by-zero on a zero divisor; otherwise it gives the quotient of a·10^p by b truncated toward zero, with the sign of a·b |
| Engine.DivByZeroFails | src/preciseNumber.ts:67-74 | a division reduce fails with division-by-zero when a zero divisor comes before any other failure |
| Engine.Compare | src/preciseNumber.ts:87-109 | definition of #executeComparison; stated by the comparison lemmas below |
| Engine.CompareScaled | src/preciseNumber.ts:87-109 | a successful comparison has both operands valid and scalable, and its answer is the integer comparison of the two scaled amounts |
| Engine.CompareTrichotomy | src/preciseNumber.ts:95-101 | of eq, lt and gt, exactly one holds for any two comparable operands |
| Engine.CompareInclusive | src/preciseNumber.ts:102-105 | gte is gt or eq; lte is lt or eq |
| Engine.CompareConverse | src/preciseNumber.ts:96-101 | a < b iff b > a, and eq is symmetric |
| Engine.CompareInvalidFails | src/preciseNumber.ts:92 | a comparison with an invalid side fails with invalid-value |
| Engine.SignChecks | src/preciseNumber.ts:324-334 | isPositive, isNegative and isZero agree with comparing the instance to the number 0, and exactly one of them holds |
| Engine.Construct | src/preciseNumber.ts:128-134 | a constructed amount's precision never exceeds MAX_PREC; its precision is stated by Engine.ConstructPrecision and its stored amount by Engine.ConstructValue |
| Engine.ConstructValue | src/preciseNumber.ts:128-134 | with an accepted precision, construction stores the value setter's conversion of the operand at Math.round(precision), or fails with the setter's error; a text or number literal is stored as its amount at those places, rounded half away from zero |
| Engine.ConstructPrecision | src/preciseNumber.ts:128-134 | construction fails with precision-out-of-range when the precision is rejected, and a constructed amount has precision Math.round(precision) |
| Engine.ConstructZero | src/preciseNumber.ts:128-134 | new PreciseNumber(0, p) holds 0 at p places |
| Engine.StaticOperateSpec | src/preciseNumber.ts:252-270 | a static operator on no values gives 0 at the default precision; on valid values it equals the instance operation at the default precision |
| Engine.StaticCompareSpec | src/preciseNumber.ts:300-318 | a static comparator on valid operands equals the comparison at the default precision |
| Engine.Clip | src/preciseNumber.ts:170-173 | definition of clip on values; stated by the clip lemmas below |
| Engine.ClipValue | src/preciseNumber.ts:170-173 | clip never fails on a valid instance, and its result is ClipAmount, the amount described by the three clip lemmas below |
| Engine.ScaleFixedText | src/preciseNumber.ts:172 | the text round() prints is non-empty, and the scaler reads it back as the rounded magnitude rescaled, with its sign |
| Engine.ClipToFinerKeeps | src/preciseNumber.ts:170-173 | clipping to at least the instance's own precision returns the same amount |
| Engine.ClipToCoarser | src/preciseNumber.ts:170-173 | clipping to fewer places gives the magnitude rounded half away from zero to `to` places, scaled back to the instance's precision, with its sign |
| Engine.ClipIdempotent | src/preciseNumber.ts:170-173 | clipping twice at the same target is the same as clipping once |
| Engine.PrecisionSetterAsWritten | src/preciseNumber.ts:206-210 | the setter as written succeeds iff the precision is accepted, fails with precision-out-of-range otherwise, and on success leaves the amount and precision unchanged |
| Engine.PrecisionSetterCounterexample | src/preciseNumber.ts:206-210 | setting precision 3 on 150 at 2 places leaves 150 at 2 as written; the corrected setter gives 1500 at 3 |
| Engine.Rescale | src/preciseNumber.ts:206-210 | the corrected setter succeeds iff the precision is accepted; the new precision is the validated one; going to more places multiplies by the matching power of ten, going to fewer divides by it truncating toward zero |
| Engine.RescaleRoundTrip | src/preciseNumber.ts:206-210 | raising the precision and lowering it back restores the original amount |
| Rounding.NeutralizedMul | src/preciseNumber.ts:54-61 | definition of #neutralizedMul on the product's text; stated by Rounding.NeutralizedMulDigit |
| Rounding.NeutralizedMulDigit | src/preciseNumber.ts:54-61 | #neutralizedMul is the quotient truncated toward zero plus one when the first discarded digit is 5 or more |
| Rounding.RoundingCharacter | src/preciseNumber.ts:56-58 | the character at length − p of the product's text is above 4 iff the first discarded digit of the product is at least 5 |
| Rounding.NeutralizedMulAtPrecisionZero | src/preciseNumber.ts:54-61 | at precision 0 the product is returned unchanged |
| Rounding.NeutralizedMulOfNonNegative | src/preciseNumber.ts:54-61 | for a non-negative product #neutralizedMul agrees with the corrected rounding |
| Rounding.NeutralizedMulOfNegative | src/preciseNumber.ts:54-61 | for a negative product #neutralizedMul is the corrected rounding plus 2 when the first discarded digit is 5 or more, and equal to it otherwise |
| Rounding.NeutralizedMulSignFlip | src/preciseNumber.ts:54-61 | for product −5 at one place (−0.1 × 0.5) #neutralizedMul gives +1, where the corrected rounding gives −1 |
| Rounding.NeutralizedMulNegativeCounterexample | src/preciseNumber.ts:54-61 | for product −225 at one place #neutralizedMul gives −21, more than half a unit from −22.5, where the corrected rounding gives −23 |
| Rounding.RoundedMulNearest | src/preciseNumber.ts:76 | the corrected product is within half a unit of product / 10^p, with the product's sign |
| Rounding.RoundedMulSymmetric | src/preciseNumber.ts:76 | the corrected rounding is odd: negating the product negates the result |
| Rounding.RoundText | src/preciseNumber.ts:141-168 | definition of the text round(to) builds; stated by Rounding.RoundTextSpec and Rounding.FixedTextShape |
| Rounding.RoundTextSpec | src/preciseNumber.ts:141-168 | round(to) prints the magnitude rounded half away from zero to max(to, 0) places, with exactly that many fractional digits, '-' first iff the stored value is negative |
| Rounding.FixedTextShape | src/preciseNumber.ts:163-167 | the printed text starts with '-' iff negative, has no point when to is 0, and otherwise ends in a point followed by exactly `to` digits |
| Utils.TruncDiv | src/preciseNumber.ts:74 | BigInt division: the magnitude of the quotient is the floor of the magnitudes' quotient, and a non-zero quotient is negative iff exactly one operand is |
| Utils.HalfUp | tests/preciseNumber/core.spec.ts:17-21 | rescaling a magnitude to more places multiplies by a power of ten; to fewer places it is within half a unit, ties going up in magnitude |
| Utils.RoundOnFirstDiscardedDigit | tests/preciseNumber/core.spec.ts:17-21 | half-up rounding is truncation plus one iff the first discarded digit is 5 or more |
| Utils.MatchPrecision | src/preciseNumber.ts:48 | matchPrecision keeps the value at equal precision, multiplies by 10^(to−from) going up, and drops digits of the magnitude keeping the sign going down |
| Utils.MatchPrecisionTruncates | src/preciseNumber.ts:48 | going down, matchPrecision is BigInt division by 10^(from−to) |
| Utils.MatchPrecisionRoundTrip | src/preciseNumber.ts:48 | going up and back down restores the value |
| Utils.ParseDecimal | tests/preciseNumber/core.spec.ts:48-57 | accepted text has digit-only whole and fraction parts with at least one digit in all |
| Utils.ParseDecimalForm | tests/preciseNumber/core.spec.ts:48-57 | accepted text is exactly "[-]whole.fraction" or "[-]whole" |
| Utils.ParsePointed | tests/preciseNumber/core.spec.ts:49-53 | every "[-]whole.fraction" with at least one digit is accepted and split into its parts |
| Utils.StrayCharacterRefused | tests/preciseNumber/core.spec.ts:56-57 | any character other than a digit, the point or a leading '-' makes the text refused, wherever it stands |
| Utils.TwoPointsRefused | tests/preciseNumber/core.spec.ts:55 | text with two points is refused, whatever else it holds |
| Utils.ScaleText | tests/preciseNumber/core.spec.ts:13-35 | definition of the scaler; stated by Utils.ScaleTextAmount |
| Utils.ScaleTextAmount | tests/preciseNumber/core.spec.ts:13-35 | the scaler succeeds iff the text is a plain decimal literal, with the literal's amount at p places rounded half away from zero; otherwise it fails with parse-failure |
| Utils.ScaledMagnitudeRounds | tests/preciseNumber/core.spec.ts:13-35 | the scaler's magnitude is the literal's digits read as one integer and rounded half up from |fraction| places to p |
| Utils.StripTrailingZeros | tests/preciseNumber/core.spec.ts:74-75 | the result is the input without its trailing zeros: a prefix followed only by zeros, not itself ending in '0' |
| Utils.ToDecimalString | tests/preciseNumber/core.spec.ts:71-87 | definition of toDecimalString; stated by Utils.DecimalStringRoundTrip and the toDecimalString examples |
| Utils.DecimalStringRoundTrip | src/preciseNumber.ts:340-346 | the scaler reads toDecimalString(v, p) back to v at p places |
| PreciseNumbers.PreciseNumber.Zero | src/preciseNumber.ts:128-134 | a zero at a validated precision: value 0 at p places |
| PreciseNumbers.PreciseNumber.New | src/preciseNumber.ts:128-134 | the constructor succeeds iff Construct does, with the same error; a fresh instance holds Construct's amount |
| PreciseNumbers.PreciseNumber.SetValue | src/preciseNumber.ts:189-192 | the value setter stores the operand scaled to the unchanged precision, or fails as Convert does and changes nothing |
| PreciseNumbers.PreciseNumber.SetInnerValue | src/preciseNumber.ts:136-139 | _setInnerValue stores the integer as given and keeps the precision |
| PreciseNumbers.PreciseNumber.SetPrecision | src/preciseNumber.ts:206-210 | the precision setter as written succeeds iff the precision is accepted, fails with precision-out-of-range otherwise, and never changes the state |
| PreciseNumbers.PreciseNumber.RescaleTo | src/preciseNumber.ts:206-210 | the setter as evidently intended: the new state is Rescale of the old state, or it fails with precision-out-of-range and changes nothing |
| PreciseNumbers.PreciseNumber.ExecuteOperation | src/preciseNumber.ts:63-85 | #executeOperation succeeds iff Operate does, with the same error; a fresh instance holds Operate's amount; the receiver is unchanged |
| PreciseNumbers.PreciseNumber.Add | src/preciseNumber.ts:232-234 | add(...values) succeeds iff the operation on [this, ...values] does, with the same error, and then returns a fresh instance holding its amount |
| PreciseNumbers.PreciseNumber.Sub | src/preciseNumber.ts:236-238 | sub(...values) succeeds iff the operation on [this, ...values] does, with the same error, and then returns a fresh instance holding its amount |
| PreciseNumbers.PreciseNumber.Mul | src/preciseNumber.ts:240-242 | mul(...values) succeeds iff the operation on [this, ...values] does, with the same error, and then returns a fresh instance holding its amount |
| PreciseNumbers.PreciseNumber.Div | src/preciseNumber.ts:244-246 | div(...values) succeeds iff the operation on [this, ...values] does, with the same error, and then returns a fresh instance holding its amount |
| PreciseNumbers.PreciseNumber.StaticOperation | src/preciseNumber.ts:252-270 | the static operators succeed iff StaticOperate does, with the same error, and then return a fresh valid instance holding its amount |
| PreciseNumbers.PreciseNumber.Compare | src/preciseNumber.ts:276-294 | eq/gt/lt/gte/lte compare the receiver with the operand at the receiver's precision |
| PreciseNumbers.PreciseNumber.StaticComparison | src/preciseNumber.ts:300-318 | the static comparators equal StaticCompare |
| PreciseNumbers.PreciseNumber.Round | src/preciseNumber.ts:141-168 | round(to) is the stored magnitude rounded half away from zero to max(to, 0) places, printed with exactly that many fractional digits and the stored value's sign |
| PreciseNumbers.PreciseNumber.Clip | src/preciseNumber.ts:170-173 | clip(to) returns a fresh instance at the same precision holding the clipped amount |
| PreciseNumbers.PreciseNumber.Copy | src/preciseNumber.ts:175-179 | copy() returns a fresh instance with the same integer and precision |
| PreciseNumbers.PreciseNumber.IsPositive | src/preciseNumber.ts:324-326 | isPositive() agrees with gt(0) |
| PreciseNumbers.PreciseNumber.IsNegative | src/preciseNumber.ts:328-330 | isNegative() agrees with lt(0) |
| PreciseNumbers.PreciseNumber.IsZero | src/preciseNumber.ts:332-334 | isZero() agrees with eq(0) |
| PreciseNumbers.PreciseNumber.ToString | src/preciseNumber.ts:340-346 | toString()/toJSON() print text that the scaler reads back to the stored integer at the stored precision |
| Monies.Merge | src/money.ts:22-26 | definition of the option merge; stated by Monies.MergeNoOptions and Monies.MergeFieldByField |
| Monies.MergeNoOptions | src/money.ts:10-14 | without options, a Money gets the default precision, the default display and an empty currency |
| Monies.MergeFieldByField | src/money.ts:22-26 | each option the caller gives wins; each absent one takes its default, independently of the other fields |
| Monies.Money.Assemble | src/money.ts:29-30 | the Money holds the given number part, display and currency |
| Monies.Money.New | src/money.ts:21-31 | new Money succeeds iff Construct with the merged precision does, with the same error; then it holds that amount, the merged display and the merged currency |
| Monies.Money.Convert | src/money.ts:33-39 | convert always fails: with currency-not-set iff the currency is empty and `from` is absent or empty, otherwise with not-implemented |
| Monies.Money.Operation | src/money.ts:17 | inherited arithmetic succeeds iff the operation on [this, ...values] does, with the same error, and then returns a fresh plain PreciseNumber at the Money's precision holding its amount |
| Vectors.ScalerPointTwoAtZero | tests/preciseNumber/core.spec.ts:13 | scaler('.2', 0) is 0 |
| Vectors.ScalerPointTwoAtOne | tests/preciseNumber/core.spec.ts:14 | scaler('.2', 1) is 2 |
| Vectors.ScalerPads | tests/preciseNumber/core.spec.ts:15 | scaler('22.2', 2) is 2220 |
| Vectors.ScalerDrops | tests/preciseNumber/core.spec.ts:16 | scaler('22.2', 0) is 22 |
| Vectors.ScalerRoundsUp | tests/preciseNumber/core.spec.ts:17 | scaler('55.555', 2) is 5556 |
| Vectors.ScalerPadsMore | tests/preciseNumber/core.spec.ts:18 | scaler('55.555', 6) is 55555000 |
| Vectors.ScalerPadsNegative | tests/preciseNumber/core.spec.ts:19 | scaler('-55.555', 6) is -55555000 |
| Vectors.ScalerHalfUp | tests/preciseNumber/core.spec.ts:20 | scaler('2.555', 2) is 256 |
| Vectors.ScalerHalfAwayFromZero | tests/preciseNumber/core.spec.ts:21 | scaler('-2.555', 2) is -256 |
| Vectors.ScalerWholeNumber | tests/preciseNumber/core.spec.ts:30 | scaler(22, 0) is 22 |
| Vectors.ScalerNegativeWholeNumber | tests/preciseNumber/core.spec.ts:31 | scaler(-22, 0) is -22 |
| Vectors.ScalerNumberToWhole | tests/preciseNumber/core.spec.ts:32 | scaler(22.555, 0) is 23 |
| Vectors.ScalerNegativeNumberToWhole | tests/preciseNumber/core.spec.ts:33 | scaler(-22.555, 0) is -23 |
| Vectors.ScalerNumberToCents | tests/preciseNumber/core.spec.ts:34 | scaler(22.555, 2) is 2256 |
| Vectors.ScalerNegativeNumberToCents | tests/preciseNumber/core.spec.ts:35 | scaler(-22.555, 2) is -2256 |
| Vectors.LeadingPointAccepted | tests/preciseNumber/core.spec.ts:52 | '.22' is valid input |
| Vectors.TrailingPointAccepted | tests/preciseNumber/core.spec.ts:53 | '22.' is valid input |
| Vectors.LonePointRefused | tests/preciseNumber/core.spec.ts:54 | '.' is not valid input |
| Vectors.SecondPointRefused | tests/preciseNumber/core.spec.ts:55 | '22.22.22' is not valid input |
| Vectors.CommaRefused | tests/preciseNumber/core.spec.ts:56 | '22,22,22' is not valid input |
| Vectors.UnderscoreRefused | tests/preciseNumber/core.spec.ts:57 | '22_22_22' is not valid input |
| Vectors.DecimalStringZero | tests/preciseNumber/core.spec.ts:71 | toDecimalString(0n, 5) is '0' |
| Vectors.DecimalStringTenth | tests/preciseNumber/core.spec.ts:72 | toDecimalString(1n, 1) is '0.1' |
| Vectors.DecimalStringNegativeTenth | tests/preciseNumber/core.spec.ts:73 | toDecimalString(-1n, 1) is '-0.1' |
| Vectors.DecimalStringStripsZeros | tests/preciseNumber/core.spec.ts:74 | toDecimalString(100n, 3) is '0.1' |
| Vectors.DecimalStringNegativeStripsZeros | tests/preciseNumber/core.spec.ts:75 | toDecimalString(-100n, 3) is '-0.1' |
| Vectors.DecimalStringWhole | tests/preciseNumber/core.spec.ts:76 | toDecimalString(22n, 0) is '22' |
| Vectors.DecimalStringNegativeWhole | tests/preciseNumber/core.spec.ts:77 | toDecimalString(-22n, 0) is '-22' |
| Vectors.DecimalStringOnePlace | tests/preciseNumber/core.spec.ts:78 | toDecimalString(22n, 1) is '2.2' |
| Vectors.DecimalStringNegativeOnePlace | tests/preciseNumber/core.spec.ts:79 | toDecimalString(-22n, 1) is '-2.2' |
| Vectors.DecimalStringTwoPlaces | tests/preciseNumber/core.spec.ts:80 | toDecimalString(22n, 2) is '0.22' |
| Vectors.DecimalStringNegativeTwoPlaces | tests/preciseNumber/core.spec.ts:81 | toDecimalString(-22n, 2) is '-0.22' |
| Vectors.DecimalStringPadsFraction | tests/preciseNumber/core.spec.ts:82 | toDecimalString(22n, 3) is '0.022' |
| Vectors.DecimalStringNegativePadsFraction | tests/preciseNumber/core.spec.ts:83 | toDecimalString(-22n, 3) is '-0.022' |
| Vectors.DecimalStringDropsPoint | tests/preciseNumber/core.spec.ts:84 | toDecimalString(222000n, 3) is '222' |
| Vectors.DecimalStringNegativeDropsPoint | tests/preciseNumber/core.spec.ts:85 | toDecimalString(-222000n, 3) is '-222' |
| Vectors.DecimalStringKeepsDigit | tests/preciseNumber/core.spec.ts:86 | toDecimalString(222100n, 3) is '222.1' |
| Vectors.DecimalStringNegativeKeepsDigit | tests/preciseNumber/core.spec.ts:87 | toDecimalString(-222100n, 3) is '-222.1' |
| Vectors.MakerRounds | tests/preciseNumber/preciseNumberMaker.spec.ts:26 | new PreciseNumber(2.555, 2) holds the integer 256 |
| Vectors.AddTenthAndFifth | tests/preciseNumber/preciseNumberOperator.spec.ts:27 | at two places, 0.1 add 0.2 holds the integer 30 |
| Vectors.TenthIsNotFifth | tests/preciseNumber/preciseNumberComparator.spec.ts:29 | at two places, 0.1 eq 0.2 is false |

## Left out

- The floating-point getters `value`, `float` and `v` (src/preciseNumber.ts:185-196, 216-218) divide a double by a double. Floating point is not modelled. The `integer`, `i` and `valueOf` getters are the `value` field itself.
- Precision arguments are real numbers, and `Math.round` is `Engine.JsRound`. A `NaN` or infinite precision is not modelled.
- A JavaScript number operand is given by the decimal text it prints, without exponent notation. Numbers that print in exponent form (below 1e-6 or from 1e21 up) are not modelled.
- The argument of `round(to)` and `clip(to)` is an integer. Its validity check for `NaN` and the infinities is not modelled, and neither is a fractional `to`.
- The scaler, `matchPrecision` and `toDecimalString` are not part of this model's source files, and neither is `src/consts.ts`.
  - The behaviour above follows the repository's tests.
  - Grouping separators (`22,22,22`, `22_22_22`) are refused, as tests/preciseNumber/core.spec.ts:56-57 expect; one reading of the library strips them instead.
  - `getFractionalLength` (src/utils.ts) is not used by the core and is not modelled.
- The scaler examples on `1.9999999999999999999999999999` (tests/preciseNumber/core.spec.ts:22-29) are not stated as lemmas of their own. The general lemmas `Utils.ScaledMagnitudeRounds` and `Utils.RoundOnFirstDiscardedDigit` cover them.
- Sign of `round`'s text: `round` keeps the code's sign rule. A negative value that rounds to zero prints with a leading `-` (for example `-0.00`), and a negative tie rounds away from zero (`-0.5` gives `-1`). Some descriptions of the library give `0` for these.
- The banker's-rounding mode, currency-code validation, conversion rates, `to`/`split` and the other Money API in tests/money/money.spec.ts are not in this version of src/money.ts.
- The build script, `index.ts` and the profiling helpers (profile/, tests/profile/) do not take part in the arithmetic.
- Utils.MatchPrecision: going down in precision it divides by a power of ten truncating toward zero, as BigInt division does. This is a modelling choice: the body of `matchPrecision` is not part of this model, and the repository's tests do not exercise it.
- Monies.Money.Convert: `from` is an `Option<string>`. An absent argument is `None`.
- Falsy operands: among strings, only the empty string is falsy. Falsy values outside the modelled inputs (`null`, `undefined`, `false`) are not modelled.
- When Money is given an explicit `undefined` precision, the constructor's default applies. This is not modelled: an option is either present with a value or absent.

## Findings

| source | as written | input that shows it | evidently intended | confidence | as-written member | corrected member |
|---|---|---|---|---|---|---|
| src/preciseNumber.ts:54-61 | `#neutralizedMul` truncates the product toward zero, then adds 1 whenever the first discarded digit is 5 or more. For a negative product the 1 is added upward, so whenever it applies the result lands two units above the nearest value, and it can even change sign. | `mul` of −1.5 by 1.5 at one place: product −225 gives −21 (−2.1), 0.15 away from −2.25. `mul` of −0.1 by 0.5 at one place: product −5 gives +1 (+0.1) for a true −0.05. | Round half away from zero, as the scaler does: −225 gives −23 (−2.3) and −5 gives −1 (−0.1), each within half a unit. | not executed | Rounding.NeutralizedMulSignFlip | Rounding.RoundedMulNearest |
| src/preciseNumber.ts:206-210 | The precision setter validates its argument, then rescales from `this.precision` to `this.#precision` (the same value). It then assigns `#precision` to itself, so nothing changes. | Setting `precision = 3` on 1.50 held at two places (integer 150) leaves integer 150 at precision 2. | Rescale the stored integer to the new precision: 1500 at precision 3. | not executed | Engine.PrecisionSetterCounterexample | PreciseNumbers.PreciseNumber.RescaleTo |
