/**
 * The value-level behaviour of PreciseNumber: an amount is a pair of an unbounded scaled
 * integer and a count of decimal places, and every operation validates its operands,
 * scales them to the receiver's places and works on the integers.
 */
module Engine {
  import opened Wrappers
  import opened Consts
  import opened Digits
  import opened Utils
  import opened Rounding

  /** The state of a PreciseNumber: `value` is the amount times 10^precision. */
  datatype Fixed = Fixed(value: int, precision: nat)

  /**
   * What an operand can be. A finite JavaScript number is given by the decimal text its
   * toString() prints (without exponent notation); NaN and the infinities are separate;
   * another instance is given by its state.
   */
  datatype Input =
    | Text(text: string)
    | Num(decimal: string)
    | NotANumber
    | PosInfinity
    | NegInfinity
    | Instance(amount: Fixed)

  datatype Operator = Add | Sub | Mul | Div

  datatype Comparator = Eq | Gt | Lt | Gte | Lte

  /* ---------------- Validation ---------------- */

  /** Math.round: the nearest integer, halves rounded up. */
  function JsRound(x: real): (r: int)
    ensures (r as real) - 0.5 <= x < (r as real) + 0.5
  {
    (x + 0.5).Floor
  }

  /**
   * #validateAndGetPrecision: the precision rounded with Math.round, accepted when it lies
   * in [MIN_PREC, MAX_PREC].
   */
  function ValidatePrecision(precision: real): (r: Result<nat>)
    ensures r.Success? <==> (MIN_PREC as real) - 0.5 <= precision < (MAX_PREC as real) + 0.5
    ensures r.Success? ==> MIN_PREC <= r.value <= MAX_PREC &&
                           (r.value as real) - 0.5 <= precision < (r.value as real) + 0.5
    ensures r.Failure? ==> r.error == PrecisionOutOfRange
  {
    var p := JsRound(precision);
    if p > MAX_PREC || p < MIN_PREC then Failure(PrecisionOutOfRange) else Success(p)
  }

  /**
   * #throwIfInvalidInput on one operand: 0 passes, NaN and the infinities are refused, and so
   * is any other falsy operand, which among the modelled inputs is only the empty string.
   */
  predicate IsValidInput(x: Input)
  {
    match x
    case Text(s) => s != ""
    case Num(_) => true
    case NotANumber => false
    case PosInfinity => false
    case NegInfinity => false
    case Instance(_) => true
  }

  /** #throwIfInvalidInput on a list: passes when every operand passes, in order. */
  function CheckInputs(xs: seq<Input>): (r: Outcome)
    ensures r.Pass? <==> forall i :: 0 <= i < |xs| ==> IsValidInput(xs[i])
    ensures r.Fail? ==> r.error == InvalidValue
  {
    if xs == [] then Pass
    else if !IsValidInput(xs[0]) then Fail(InvalidValue)
    else CheckInputs(xs[1..])
  }

  /* ---------------- Scaling ---------------- */

  /**
   * #scaleAndConvert: another instance is rescaled with matchPrecision; text and numbers go
   * through the scaler.
   */
  function Scale(x: Input, p: nat): Result<int>
    requires IsValidInput(x)
  {
    match x
    case Instance(f) => Success(MatchPrecision(f.value, f.precision, p))
    case Text(s) => ScaleText(s, p)
    case Num(d) => ScaleText(d, p)
  }

  /**
   * The `value` setter (and #scaleAndConvert after #throwIfInvalidInput): text and numbers
   * convert when they are non-empty plain decimal literals, to the literal's amount at p
   * places; another instance converts to its integer rescaled by matchPrecision; NaN, the
   * infinities and the empty string are invalid values; a valid operand fails only to parse.
   */
  function Convert(x: Input, p: nat): (r: Result<int>)
    ensures x.Text? ==> (r.Success? <==> x.text != "" && ParseDecimal(x.text).Some?)
    ensures x.Text? && r.Success? ==> r.value == LiteralAmount(ParseDecimal(x.text).value, p)
    ensures x.Num? ==> (r.Success? <==> ParseDecimal(x.decimal).Some?)
    ensures x.Num? && r.Success? ==> r.value == LiteralAmount(ParseDecimal(x.decimal).value, p)
    ensures x.Instance? ==> r == Success(MatchPrecision(x.amount.value, x.amount.precision, p))
    ensures r.Failure? ==> (r.error == InvalidValue <==> !IsValidInput(x))
    ensures r.Failure? && IsValidInput(x) ==> r.error == ParseFailure
    ensures !IsValidInput(x) ==> r.Failure?
    ensures IsValidInput(x) ==> r == Scale(x, p)
  {
    if !IsValidInput(x) then Failure(InvalidValue)
    else
      match x
      case Text(s) => ScaleTextAmount(s, p); Scale(x, p)
      case Num(d) => ScaleTextAmount(d, p); Scale(x, p)
      case Instance(_) => Scale(x, p)
  }

  /** values.map(#scaleAndConvert): every operand scaled to p places, in order. */
  function ScaleAll(xs: seq<Input>, p: nat): (r: Result<seq<int>>)
    requires forall i :: 0 <= i < |xs| ==> IsValidInput(xs[i])
    ensures r.Success? ==> |r.value| == |xs|
  {
    if xs == [] then Success([])
    else
      match Scale(xs[0], p)
      case Failure(e) => Failure(e)
      case Success(a) =>
        match ScaleAll(xs[1..], p)
        case Failure(e) => Failure(e)
        case Success(rest) => Success([a] + rest)
  }

  /**
   * The map scales operand by operand: when it succeeds, element i is operand i scaled, and
   * it fails exactly when some operand fails to scale.
   */
  lemma {:induction false} ScaleAllSpec(xs: seq<Input>, p: nat)
    requires forall i :: 0 <= i < |xs| ==> IsValidInput(xs[i])
    ensures ScaleAll(xs, p).Success? ==>
              forall i :: 0 <= i < |xs| ==> Scale(xs[i], p) == Success(ScaleAll(xs, p).value[i])
    ensures ScaleAll(xs, p).Failure? <==> exists i :: 0 <= i < |xs| && Scale(xs[i], p).Failure?
    ensures ScaleAll(xs, p).Failure? ==> ScaleAll(xs, p).error == ParseFailure
  {
    if xs != [] {
      ScaleAllSpec(xs[1..], p);
      assert forall i :: 1 <= i < |xs| ==> xs[i] == xs[1..][i - 1];
      if Scale(xs[0], p).Failure? {
        assert Scale(xs[0], p).Failure?;
      }
    }
  }

  /* ---------------- Arithmetic ---------------- */

  /**
   * One step of the reduce in #executeOperation, with neutralizer 10^p; `mul` goes through
   * #neutralizedMul as written. Only a division by 0 fails (FoldOutcome).
   */
  function Step(op: Operator, p: nat, a: int, b: int): Result<int>
  {
    match op
    case Add => Success(a + b)
    case Sub => Success(a - b)
    case Div => if b == 0 then Failure(DivisionByZero) else Success(TruncDiv(a * Pow10(p), b))
    case Mul => Success(NeutralizedMul(a * b, p))
  }

  /** reduce: the accumulator combined with each remaining scaled operand, left to right. */
  function Fold(op: Operator, p: nat, acc: int, rest: seq<int>): Result<int>
    decreases |rest|
  {
    if rest == [] then Success(acc)
    else
      match Step(op, p, acc, rest[0])
      case Failure(e) => Failure(e)
      case Success(next) => Fold(op, p, next, rest[1..])
  }

  /**
   * The reduce fails only when dividing by a scaled operand that is 0, and then with the
   * division-by-zero error: add, sub and mul always succeed, and div succeeds exactly when
   * no divisor is 0.
   */
  lemma {:induction false} FoldOutcome(op: Operator, p: nat, acc: int, rest: seq<int>)
    decreases |rest|
    ensures Fold(op, p, acc, rest).Failure? <==> op == Div && exists i :: 0 <= i < |rest| && rest[i] == 0
    ensures Fold(op, p, acc, rest).Failure? ==> Fold(op, p, acc, rest).error == DivisionByZero
  {
    if rest != [] {
      if op == Div && rest[0] == 0 {
        assert Fold(op, p, acc, rest) == Failure(DivisionByZero);
      } else {
        var next := Step(op, p, acc, rest[0]).value;
        FoldOutcome(op, p, next, rest[1..]);
        assert forall i :: 0 < i < |rest| ==> rest[i] == rest[1..][i - 1];
      }
    }
  }

  /**
   * #executeOperation at the receiver's precision p: validate every operand, scale every
   * operand, reduce, and wrap the integer at p places.
   */
  function Operate(op: Operator, p: nat, operands: seq<Input>): Result<Fixed>
    requires |operands| >= 1
  {
    if CheckInputs(operands).Fail? then Failure(CheckInputs(operands).error)
    else
      match ScaleAll(operands, p)
      case Failure(e) => Failure(e)
      case Success(amounts) =>
        match Fold(op, p, amounts[0], amounts[1..])
        case Failure(e) => Failure(e)
        case Success(v) => Success(Fixed(v, p))
  }

  /** The sum of a list of integers. */
  function Sum(xs: seq<int>): int
  {
    if xs == [] then 0 else xs[0] + Sum(xs[1..])
  }

  /** Adding left to right adds the sum of the remaining operands. */
  lemma {:induction false} FoldAdd(p: nat, acc: int, rest: seq<int>)
    decreases |rest|
    ensures Fold(Add, p, acc, rest) == Success(acc + Sum(rest))
  {
    if rest != [] {
      FoldAdd(p, acc + rest[0], rest[1..]);
    }
  }

  /** Subtracting left to right subtracts the sum of the remaining operands. */
  lemma {:induction false} FoldSub(p: nat, acc: int, rest: seq<int>)
    decreases |rest|
    ensures Fold(Sub, p, acc, rest) == Success(acc - Sum(rest))
  {
    if rest != [] {
      FoldSub(p, acc - rest[0], rest[1..]);
    }
  }

  /** Once every operand is valid and scaled, the operation is the reduce at p places. */
  lemma OperateScaled(op: Operator, p: nat, operands: seq<Input>, amounts: seq<int>, v: int)
    requires |operands| >= 1
    requires forall i :: 0 <= i < |operands| ==> IsValidInput(operands[i])
    requires ScaleAll(operands, p) == Success(amounts)
    requires |amounts| >= 1 && Fold(op, p, amounts[0], amounts[1..]) == Success(v)
    ensures Operate(op, p, operands) == Success(Fixed(v, p))
  {
  }

  /**
   * Validation comes first: when any operand is invalid the operation fails with the
   * invalid-value error, whatever the other operands are, before any scaling or arithmetic.
   */
  lemma InvalidOperandFails(op: Operator, p: nat, operands: seq<Input>, i: nat)
    requires |operands| >= 1 && i < |operands| && !IsValidInput(operands[i])
    ensures Operate(op, p, operands) == Failure(InvalidValue)
  {
  }

  /**
   * With no operand besides the receiver every operator returns the receiver rescaled to
   * its own precision, that is, the receiver itself.
   */
  lemma LoneReceiver(op: Operator, f: Fixed)
    ensures Operate(op, f.precision, [Instance(f)]) == Success(f)
  {
    var ops := [Instance(f)];
    assert ops[1..] == [];
    assert Scale(ops[0], f.precision) == Success(f.value);
    assert ScaleAll(ops[1..], f.precision) == Success([]);
    assert [f.value] + [] == [f.value];
    assert ScaleAll(ops, f.precision) == Success([f.value]);
  }

  /**
   * An operation fails in the order the code checks: with invalid-value when some operand is
   * invalid; otherwise with parse-failure when some operand does not scale; otherwise with
   * division-by-zero exactly when it divides by an operand that scales to 0. Add, sub and
   * mul of valid operands that scale always succeed.
   */
  lemma OperateOutcome(op: Operator, p: nat, operands: seq<Input>)
    requires |operands| >= 1
    ensures CheckInputs(operands).Fail? ==> Operate(op, p, operands) == Failure(InvalidValue)
    ensures CheckInputs(operands).Pass? && ScaleAll(operands, p).Failure? ==>
            Operate(op, p, operands) == Failure(ParseFailure)
    ensures CheckInputs(operands).Pass? && ScaleAll(operands, p).Success? ==>
            (Operate(op, p, operands).Failure? <==>
             op == Div && exists i :: 1 <= i < |operands| && ScaleAll(operands, p).value[i] == 0)
    ensures CheckInputs(operands).Pass? && ScaleAll(operands, p).Success? && Operate(op, p, operands).Failure? ==>
            Operate(op, p, operands).error == DivisionByZero
  {
    if CheckInputs(operands).Pass? {
      ScaleAllSpec(operands, p);
      if ScaleAll(operands, p).Success? {
        var amounts := ScaleAll(operands, p).value;
        FoldOutcome(op, p, amounts[0], amounts[1..]);
        assert forall i :: 1 <= i < |amounts| ==> amounts[i] == amounts[1..][i - 1];
      }
    }
  }

  /** The result of an operation is always at the receiver's precision. */
  lemma OperateKeepsPrecision(op: Operator, p: nat, operands: seq<Input>)
    requires |operands| >= 1
    ensures Operate(op, p, operands).Success? ==> Operate(op, p, operands).value.precision == p
  {
  }

  /**
   * mul on two scaled operands a and b, as written: a*b divided by 10^p truncated toward
   * zero, plus one when the first digit dropped from |a*b| is 5 to 9, whatever the sign.
   * For a product that is not negative this is the nearest value at p places, within half
   * a unit; for a negative one it is two units above the nearest whenever the +1 applies.
   */
  lemma MulTwo(p: nat, a: int, b: int)
    ensures Fold(Mul, p, a, [b]).Success?
    ensures Fold(Mul, p, a, [b]).value ==
            TruncDiv(a * b, Pow10(p)) + (if FirstDiscardedDigit(a * b, p) >= 5 then 1 else 0)
    ensures a * b >= 0 ==> Fold(Mul, p, a, [b]).value >= 0 &&
                           Abs(2 * Fold(Mul, p, a, [b]).value * Pow10(p) - 2 * (a * b)) <= Pow10(p)
    ensures a * b < 0 ==> Fold(Mul, p, a, [b]).value ==
                          RoundedMul(a * b, p) + (if FirstDiscardedDigit(a * b, p) >= 5 then 2 else 0)
  {
    var v := NeutralizedMul(a * b, p);
    assert Fold(Mul, p, a, [b]) == Success(v);
    NeutralizedMulDigit(a * b, p);
    if a * b >= 0 {
      NeutralizedMulOfNonNegative(a * b, p);
      RoundedMulNearest(a * b, p, v, Pow10(p));
    } else {
      NeutralizedMulOfNegative(a * b, p);
    }
  }

  /**
   * The product fold with the corrected rounding: each step rounds half away from zero,
   * so each partial product is the nearest value at p places (RoundedMulNearest).
   */
  function CorrectedProduct(p: nat, acc: int, rest: seq<int>): int
    decreases |rest|
  {
    if rest == [] then acc else CorrectedProduct(p, RoundedMul(acc * rest[0], p), rest[1..])
  }

  /**
   * When the receiver and every factor are not negative, mul as written and the corrected
   * product fold agree, and the result is not negative.
   */
  lemma {:induction false} MulFoldAgrees(p: nat, acc: int, rest: seq<int>)
    decreases |rest|
    requires acc >= 0 && forall i :: 0 <= i < |rest| ==> rest[i] >= 0
    ensures Fold(Mul, p, acc, rest) == Success(CorrectedProduct(p, acc, rest))
    ensures CorrectedProduct(p, acc, rest) >= 0
  {
    if rest != [] {
      var x := acc * rest[0];
      var next := RoundedMul(x, p);
      NeutralizedMulOfNonNegative(x, p);
      RoundedMulNearest(x, p, next, Pow10(p));
      assert forall i :: 0 <= i < |rest[1..]| ==> rest[1..][i] == rest[i + 1];
      MulFoldAgrees(p, next, rest[1..]);
    }
  }

  /**
   * div on two scaled operands: (a*10^p)/b truncated toward zero, without rounding, and a
   * divisor that scales to zero is an error.
   */
  lemma DivTwo(p: nat, a: int, b: int)
    ensures b == 0 ==> Fold(Div, p, a, [b]) == Failure(DivisionByZero)
    ensures b != 0 ==> (Fold(Div, p, a, [b]).Success? &&
                        var q := Fold(Div, p, a, [b]).value;
                        Abs(q) * Abs(b) <= Abs(a * Pow10(p)) < (Abs(q) + 1) * Abs(b) &&
                        (q == 0 || ((q < 0) <==> ((a < 0) != (b < 0)))))
  {
    if b != 0 {
      var n := a * Pow10(p);
      assert (n < 0) == (a < 0) by {
        if a < 0 {
          MulAtLeast(-a, Pow10(p));
        } else {
          assert n >= 0;
        }
      }
    }
  }

  /** A division by an operand whose scaled value is 0 fails, whatever comes after it. */
  lemma {:induction false} DivByZeroFails(p: nat, acc: int, rest: seq<int>, i: nat)
    decreases i
    requires i < |rest| && rest[i] == 0
    requires forall j :: 0 <= j < i ==> rest[j] != 0
    ensures Fold(Div, p, acc, rest) == Failure(DivisionByZero)
  {
    if i > 0 {
      DivByZeroFails(p, TruncDiv(acc * Pow10(p), rest[0]), rest[1..], i - 1);
    }
  }

  /* ---------------- Comparison ---------------- */

  /** The integer comparison #executeComparison makes. */
  function CompareInts(cmp: Comparator, a: int, b: int): bool
  {
    match cmp
    case Eq => a == b
    case Gt => a > b
    case Lt => a < b
    case Gte => a >= b
    case Lte => a <= b
  }

  /**
   * #executeComparison at the receiver's precision p: validate both sides, scale both to p
   * places, compare the integers.
   */
  function Compare(cmp: Comparator, p: nat, a: Input, b: Input): Result<bool>
  {
    if CheckInputs([a, b]).Fail? then Failure(InvalidValue)
    else
      assert [a, b][0] == a && [a, b][1] == b;
      match Scale(a, p)
      case Failure(e) => Failure(e)
      case Success(x) =>
        match Scale(b, p)
        case Failure(e) => Failure(e)
        case Success(y) => Success(CompareInts(cmp, x, y))
  }

  /** A comparison that does not fail compares the two scaled integers. */
  lemma CompareScaled(cmp: Comparator, p: nat, a: Input, b: Input)
    requires Compare(cmp, p, a, b).Success?
    ensures IsValidInput(a) && IsValidInput(b) && Scale(a, p).Success? && Scale(b, p).Success?
    ensures Compare(cmp, p, a, b) == Success(CompareInts(cmp, Scale(a, p).value, Scale(b, p).value))
  {
    if !IsValidInput(a) || !IsValidInput(b) {
      CompareInvalidFails(cmp, p, a, b);
    }
  }

  /** Two valid sides that scale to x and y compare as x and y do, under every comparator. */
  lemma CompareAt(cmp: Comparator, p: nat, a: Input, b: Input, x: int, y: int)
    requires IsValidInput(a) && IsValidInput(b) && Scale(a, p) == Success(x) && Scale(b, p) == Success(y)
    ensures Compare(cmp, p, a, b) == Success(CompareInts(cmp, x, y))
  {
    assert CheckInputs([a, b]).Pass?;
  }

  /** Whenever the two sides can be compared, exactly one of lt, eq and gt holds. */
  lemma CompareTrichotomy(p: nat, a: Input, b: Input)
    requires Compare(Eq, p, a, b).Success?
    ensures Compare(Lt, p, a, b).Success? && Compare(Gt, p, a, b).Success?
    ensures (Compare(Lt, p, a, b).value && !Compare(Eq, p, a, b).value && !Compare(Gt, p, a, b).value) ||
            (!Compare(Lt, p, a, b).value && Compare(Eq, p, a, b).value && !Compare(Gt, p, a, b).value) ||
            (!Compare(Lt, p, a, b).value && !Compare(Eq, p, a, b).value && Compare(Gt, p, a, b).value)
  {
    CompareScaled(Eq, p, a, b);
    var x, y := Scale(a, p).value, Scale(b, p).value;
    CompareAt(Lt, p, a, b, x, y);
    CompareAt(Gt, p, a, b, x, y);
  }

  /** gte is gt or eq, and lte is lt or eq. */
  lemma CompareInclusive(p: nat, a: Input, b: Input)
    requires Compare(Eq, p, a, b).Success?
    ensures Compare(Gte, p, a, b).Success? && Compare(Lte, p, a, b).Success?
    ensures Compare(Lt, p, a, b).Success? && Compare(Gt, p, a, b).Success?
    ensures Compare(Gte, p, a, b).value == (Compare(Gt, p, a, b).value || Compare(Eq, p, a, b).value)
    ensures Compare(Lte, p, a, b).value == (Compare(Lt, p, a, b).value || Compare(Eq, p, a, b).value)
  {
    CompareScaled(Eq, p, a, b);
    var x, y := Scale(a, p).value, Scale(b, p).value;
    CompareAt(Lt, p, a, b, x, y);
    CompareAt(Gt, p, a, b, x, y);
    CompareAt(Gte, p, a, b, x, y);
    CompareAt(Lte, p, a, b, x, y);
  }

  /** Swapping the sides swaps lt and gt, and leaves eq alone. */
  lemma CompareConverse(p: nat, a: Input, b: Input)
    requires Compare(Eq, p, a, b).Success?
    ensures Compare(Lt, p, a, b) == Compare(Gt, p, b, a)
    ensures Compare(Eq, p, a, b) == Compare(Eq, p, b, a)
  {
    CompareScaled(Eq, p, a, b);
    var x, y := Scale(a, p).value, Scale(b, p).value;
    CompareAt(Lt, p, a, b, x, y);
    CompareAt(Gt, p, b, a, y, x);
    CompareAt(Eq, p, b, a, y, x);
  }

  /** An invalid side makes every comparison fail before anything is scaled. */
  lemma CompareInvalidFails(cmp: Comparator, p: nat, a: Input, b: Input)
    requires !IsValidInput(a) || !IsValidInput(b)
    ensures Compare(cmp, p, a, b) == Failure(InvalidValue)
  {
    assert !IsValidInput([a, b][0]) || !IsValidInput([a, b][1]);
  }

  /* ---------------- Sign checks ---------------- */

  predicate IsPositive(f: Fixed) { f.value > 0 }

  predicate IsNegative(f: Fixed) { f.value < 0 }

  predicate IsZero(f: Fixed) { f.value == 0 }

  /**
   * The sign checks agree with comparing against the number 0 at the amount's own
   * precision; exactly one of them holds.
   */
  lemma SignChecks(f: Fixed)
    ensures Compare(Gt, f.precision, Instance(f), Num("0")) == Success(IsPositive(f))
    ensures Compare(Lt, f.precision, Instance(f), Num("0")) == Success(IsNegative(f))
    ensures Compare(Eq, f.precision, Instance(f), Num("0")) == Success(IsZero(f))
    ensures (IsPositive(f) && !IsNegative(f) && !IsZero(f)) ||
            (!IsPositive(f) && IsNegative(f) && !IsZero(f)) ||
            (!IsPositive(f) && !IsNegative(f) && IsZero(f))
  {
    ScaleZero(f.precision);
    SignsAgainst(f, Num("0"));
  }

  /** The sign checks against any operand that scales to 0 at the amount's precision. */
  lemma SignsAgainst(f: Fixed, zero: Input)
    requires IsValidInput(zero) && Scale(zero, f.precision) == Success(0)
    ensures Compare(Gt, f.precision, Instance(f), zero) == Success(IsPositive(f))
    ensures Compare(Lt, f.precision, Instance(f), zero) == Success(IsNegative(f))
    ensures Compare(Eq, f.precision, Instance(f), zero) == Success(IsZero(f))
  {
    var p := f.precision;
    assert Scale(Instance(f), p) == Success(f.value);
    CompareAt(Gt, p, Instance(f), zero, f.value, 0);
    CompareAt(Lt, p, Instance(f), zero, f.value, 0);
    CompareAt(Eq, p, Instance(f), zero, f.value, 0);
  }

  /** The text "0" scales to 0 at any precision. */
  lemma ScaleZero(p: nat)
    ensures ScaleText("0", p) == Success(0)
  {
    assert FromNat(0) == "0";
    ParseUnpointed(false, "0");
    assert Sign(false) + "0" == "0";
    ScaledMagnitudeRounds("0", "", p);
    assert "0" + "" == "0";
    assert ToNat("0") == 0;
    ZeroProduct(0, Pow10(p));
  }

  /* ---------------- Construction ---------------- */

  /**
   * new PreciseNumber(value, precision): validate the precision, then set the value through
   * the `value` setter at that precision.
   */
  function Construct(x: Input, precision: real): (r: Result<Fixed>)
    ensures r.Success? ==> r.value.precision <= MAX_PREC
  {
    match ValidatePrecision(precision)
    case Failure(e) => Failure(e)
    case Success(p) =>
      match Convert(x, p)
      case Failure(e) => Failure(e)
      case Success(v) => Success(Fixed(v, p))
  }

  /**
   * Construction fails on a precision that rounds outside [MIN_PREC, MAX_PREC], whatever the
   * value; otherwise the stored precision is Math.round of the one given.
   */
  lemma ConstructPrecision(x: Input, precision: real)
    ensures ValidatePrecision(precision).Failure? ==> Construct(x, precision) == Failure(PrecisionOutOfRange)
    ensures Construct(x, precision).Success? ==>
      ValidatePrecision(precision).Success? &&
      Construct(x, precision).value.precision == JsRound(precision)
  {
  }

  /**
   * With an accepted precision, construction stores what the value setter converts the
   * operand to at Math.round of the precision, or fails with the setter's error: a text or
   * number literal is stored as its amount at those places, rounded half away from zero.
   */
  lemma ConstructValue(x: Input, precision: real)
    ensures ValidatePrecision(precision).Success? ==>
            JsRound(precision) >= 0 && ValidatePrecision(precision).value == JsRound(precision)
    ensures ValidatePrecision(precision).Success? && Convert(x, JsRound(precision)).Success? ==>
            Construct(x, precision) == Success(Fixed(Convert(x, JsRound(precision)).value, JsRound(precision)))
    ensures ValidatePrecision(precision).Success? && Convert(x, JsRound(precision)).Failure? ==>
            Construct(x, precision) == Failure(Convert(x, JsRound(precision)).error)
    ensures ValidatePrecision(precision).Success? && x.Num? && ParseDecimal(x.decimal).Some? ==>
            Construct(x, precision) ==
            Success(Fixed(LiteralAmount(ParseDecimal(x.decimal).value, JsRound(precision)), JsRound(precision)))
    ensures ValidatePrecision(precision).Success? && x.Text? && x.text != "" && ParseDecimal(x.text).Some? ==>
            Construct(x, precision) ==
            Success(Fixed(LiteralAmount(ParseDecimal(x.text).value, JsRound(precision)), JsRound(precision)))
  {
  }

  /** An integral precision in range is kept exactly. */
  lemma ValidateWholePrecision(p: nat)
    requires MIN_PREC <= p <= MAX_PREC
    ensures ValidatePrecision(p as real) == Success(p)
  {
  }

  /** The instance at precision p that operators build with new PreciseNumber(0, p). */
  lemma ConstructZero(p: nat)
    requires MIN_PREC <= p <= MAX_PREC
    ensures Construct(Num("0"), p as real) == Success(Fixed(0, p))
  {
    ValidateWholePrecision(p);
    ScaleZero(p);
  }

  /* ---------------- Static forms ---------------- */

  /**
   * PreciseNumber.add(...values) and the other static operators: an instance is built from
   * the first value (0 when there is none) at the default precision, then the operator is
   * applied to it with the remaining values.
   */
  function StaticOperate(op: Operator, values: seq<Input>): Result<Fixed>
  {
    var first := if values == [] then Num("0") else values[0];
    var rest := if values == [] then [] else values[1..];
    match Construct(first, DEF_PREC as real)
    case Failure(e) => Failure(e)
    case Success(f) => Operate(op, f.precision, [Instance(f)] + rest)
  }

  /**
   * A static operator with no values gives 0 at the default precision; with valid values it
   * is the instance operator applied to them at the default precision.
   */
  lemma StaticOperateSpec(op: Operator, values: seq<Input>)
    ensures values == [] ==> StaticOperate(op, values) == Success(Fixed(0, DEF_PREC))
    ensures |values| >= 1 && CheckInputs(values).Pass? ==>
            StaticOperate(op, values) == Operate(op, DEF_PREC, values)
  {
    DefaultInRange();
    ValidateWholePrecision(DEF_PREC);
    if values == [] {
      ConstructZero(DEF_PREC);
      LoneReceiver(op, Fixed(0, DEF_PREC));
    } else if CheckInputs(values).Pass? {
      StaticOperateValid(op, values);
    }
  }

  /** The non-empty case of StaticOperateSpec. */
  lemma StaticOperateValid(op: Operator, values: seq<Input>)
    requires |values| >= 1 && CheckInputs(values).Pass?
    requires ValidatePrecision(DEF_PREC as real) == Success(DEF_PREC)
    ensures StaticOperate(op, values) == Operate(op, DEF_PREC, values)
  {
    assert IsValidInput(values[0]);
    var c := Convert(values[0], DEF_PREC);
    assert c == Scale(values[0], DEF_PREC);
    match c
    case Failure(e) =>
      assert StaticOperate(op, values) == Failure(e);
      assert ScaleAll(values, DEF_PREC) == Failure(e);
    case Success(v) =>
      var ops := [Instance(Fixed(v, DEF_PREC))] + values[1..];
      assert StaticOperate(op, values) == Operate(op, DEF_PREC, ops);
      OperateSameScaled(op, DEF_PREC, ops, values);
  }

  /**
   * Two valid operand lists whose first elements scale alike and whose tails agree give the
   * same operation result.
   */
  lemma OperateSameScaled(op: Operator, p: nat, a: seq<Input>, b: seq<Input>)
    requires |a| >= 1 && |b| >= 1 && a[1..] == b[1..]
    requires IsValidInput(a[0]) && CheckInputs(b).Pass?
    requires Scale(a[0], p) == Scale(b[0], p)
    ensures Operate(op, p, a) == Operate(op, p, b)
  {
    assert forall i :: 1 <= i < |a| ==> a[i] == b[1..][i - 1];
    assert CheckInputs(a).Pass?;
    ScaleAllCons(a, b, p);
  }

  /** Two operand lists whose first elements scale alike and whose tails agree scale alike. */
  lemma ScaleAllCons(a: seq<Input>, b: seq<Input>, p: nat)
    requires |a| >= 1 && |b| >= 1 && a[1..] == b[1..]
    requires forall i :: 0 <= i < |a| ==> IsValidInput(a[i])
    requires forall i :: 0 <= i < |b| ==> IsValidInput(b[i])
    requires Scale(a[0], p) == Scale(b[0], p)
    ensures ScaleAll(a, p) == ScaleAll(b, p)
  {
  }

  /**
   * PreciseNumber.eq(a, b) and the other static comparators: an instance is built from a at
   * the default precision and compared with b.
   */
  function StaticCompare(cmp: Comparator, a: Input, b: Input): Result<bool>
  {
    match Construct(a, DEF_PREC as real)
    case Failure(e) => Failure(e)
    case Success(f) => Compare(cmp, f.precision, Instance(f), b)
  }

  /** A static comparator on valid sides is the comparison at the default precision. */
  lemma StaticCompareSpec(cmp: Comparator, a: Input, b: Input)
    requires IsValidInput(a) && IsValidInput(b)
    ensures StaticCompare(cmp, a, b) == Compare(cmp, DEF_PREC, a, b)
  {
    DefaultInRange();
    ValidateWholePrecision(DEF_PREC);
    assert CheckInputs([a, b]).Pass?;
    match Scale(a, DEF_PREC) {
      case Failure(e) =>
      case Success(x) =>
        var f := Fixed(x, DEF_PREC);
        assert Construct(a, DEF_PREC as real) == Success(f);
        assert Scale(Instance(f), DEF_PREC) == Success(x);
        assert CheckInputs([Instance(f), b]).Pass?;
    }
  }

  /* ---------------- clip and the precision setter ---------------- */

  /** clip(to): an instance at the original precision built from the text round(to) gives. */
  function Clip(f: Fixed, to: int): Result<Fixed>
  {
    Construct(Text(RoundText(f.value, f.precision, to)), f.precision as real)
  }

  /**
   * The amount clip(to) computes: the stored magnitude rounded half away from zero to `to`
   * places (a negative `to` counting as 0), re-expressed at the stored precision, with the
   * stored sign.
   */
  function ClipAmount(f: Fixed, to: int): Fixed
  {
    var t := ClampPlaces(to);
    Fixed(WithSign(f.value < 0, HalfUp(HalfUp(Abs(f.value), f.precision, t), t, f.precision)), f.precision)
  }

  /** clip keeps the precision and never fails: it builds exactly ClipAmount. */
  lemma ClipValue(f: Fixed, to: int)
    requires f.precision <= MAX_PREC
    ensures Clip(f, to) == Success(ClipAmount(f, to))
  {
    var t := ClampPlaces(to);
    var n := HalfUp(Abs(f.value), f.precision, t);
    ClipText(f, to);
    ConstructFixedText(f.value < 0, n, t, f.precision);
  }

  /** clip builds its instance from FixedText of the magnitude rounded to `to` places. */
  lemma ClipText(f: Fixed, to: int)
    ensures Clip(f, to) ==
            Construct(Text(FixedText(f.value < 0, HalfUp(Abs(f.value), f.precision, ClampPlaces(to)), ClampPlaces(to))),
                      f.precision as real)
  {
    RoundTextSpec(f.value, f.precision, to);
  }

  /** Building an instance at p places from FixedText reads back n at t places by HalfUp. */
  lemma ConstructFixedText(negative: bool, n: nat, t: nat, p: nat)
    requires p <= MAX_PREC
    ensures Construct(Text(FixedText(negative, n, t)), p as real) == Success(Fixed(WithSign(negative, HalfUp(n, t, p)), p))
  {
    ValidateWholePrecision(p);
    ScaleFixedText(negative, n, t, p);
  }

  /** The scaler reads FixedText back: n at t places re-expressed at p places by HalfUp. */
  lemma ScaleFixedText(negative: bool, n: nat, t: nat, p: nat)
    ensures FixedText(negative, n, t) != ""
    ensures ScaleText(FixedText(negative, n, t), p) == Success(WithSign(negative, HalfUp(n, t, p)))
  {
    if t == 0 {
      ScaleFixedWhole(negative, n, p);
    } else {
      ScaleFixedPointed(negative, n, t, p);
    }
  }

  lemma ScaleFixedWhole(negative: bool, n: nat, p: nat)
    ensures ScaleText(FixedText(negative, n, 0), p) == Success(WithSign(negative, HalfUp(n, 0, p)))
  {
    var whole := FromNat(DropDigits(n, 0));
    assert FixedText(negative, n, 0) == Sign(negative) + whole;
    ParseUnpointed(negative, whole);
    ScaledMagnitudeRounds(whole, "", p);
    assert whole + "" == whole;
  }

  lemma ScaleFixedPointed(negative: bool, n: nat, t: nat, p: nat)
    requires t > 0
    ensures ScaleText(FixedText(negative, n, t), p) == Success(WithSign(negative, HalfUp(n, t, p)))
  {
    var whole := FromNat(DropDigits(n, t));
    var fraction := Places(n, t);
    PlacesDigits(n, t);
    assert FixedText(negative, n, t) == Sign(negative) + whole + "." + fraction;
    ScalePointedText(negative, whole, fraction, p);
    PointedDigitsValue(n, t, whole, fraction);
  }

  /** The scaler on "[-]whole.fraction" rounds the digits read at |fraction| places by HalfUp. */
  lemma ScalePointedText(negative: bool, whole: string, fraction: string, p: nat)
    requires AllDigits(whole) && AllDigits(fraction) && |whole| >= 1
    ensures AllDigits(whole + fraction)
    ensures ScaleText(Sign(negative) + whole + "." + fraction, p) ==
            Success(WithSign(negative, HalfUp(ToNat(whole + fraction), |fraction|, p)))
  {
    ParsePointed(negative, whole, fraction);
    ScaledMagnitudeRounds(whole, fraction, p);
  }

  /** The integer part and the places of FixedText read together give back n. */
  lemma PointedDigitsValue(n: nat, t: nat, whole: string, fraction: string)
    requires whole == FromNat(DropDigits(n, t))
    requires AllDigits(fraction) && |fraction| == t && ToNat(fraction) == KeepDigits(n, t)
    ensures AllDigits(whole + fraction) && ToNat(whole + fraction) == n
  {
    ToNatAppend(whole, fraction);
    DropKeep(n, t);
  }

  /** clip to at least the stored places returns the same amount. */
  lemma ClipToFinerKeeps(f: Fixed, to: int)
    requires f.precision <= MAX_PREC && ClampPlaces(to) >= f.precision
    ensures Clip(f, to) == Success(f)
  {
    ClipValue(f, to);
    FinerAmount(f, to);
  }

  lemma FinerAmount(f: Fixed, to: int)
    requires ClampPlaces(to) >= f.precision
    ensures ClipAmount(f, to) == f
  {
    HalfUpUndoesScaling(Abs(f.value), ClampPlaces(to), f.precision);
  }

  /**
   * clip to fewer places than stored rounds the magnitude half away from zero to `to`
   * places and pads it back with zeros.
   */
  lemma ClipToCoarser(f: Fixed, to: nat)
    requires f.precision <= MAX_PREC && to < f.precision
    ensures Clip(f, to) ==
            Success(Fixed(WithSign(f.value < 0, HalfUp(Abs(f.value), f.precision, to) * Pow10(f.precision - to)), f.precision))
  {
    ClipValue(f, to);
    CoarserAmount(f, to);
  }

  lemma CoarserAmount(f: Fixed, to: nat)
    requires to < f.precision
    ensures ClipAmount(f, to) ==
            Fixed(WithSign(f.value < 0, HalfUp(Abs(f.value), f.precision, to) * Pow10(f.precision - to)), f.precision)
  {
  }

  /** Clipping twice to the same places is clipping once. */
  lemma ClipIdempotent(f: Fixed, to: int)
    requires f.precision <= MAX_PREC
    ensures Clip(f, to).Success? && Clip(Clip(f, to).value, to) == Clip(f, to)
  {
    var g := ClipAmount(f, to);
    ClipValue(f, to);
    ClipValue(g, to);
    AmountIdempotent(f, to);
  }

  lemma AmountIdempotent(f: Fixed, to: int)
    ensures ClipAmount(f, to).precision == f.precision
    ensures ClipAmount(ClipAmount(f, to), to) == ClipAmount(f, to)
  {
    var t := ClampPlaces(to);
    var p := f.precision;
    if t < p {
      var n := HalfUp(Abs(f.value), p, t);
      var g := ClipAmount(f, to);
      CoarserAmount(f, t);
      CoarserAmount(g, t);
      HalfUpOfMultiple(n, p, t);
    } else {
      FinerAmount(f, to);
    }
  }

  /**
   * The precision setter as written: the new precision is validated, then the stored integer
   * is rescaled from the stored precision to the stored precision and the stored precision is
   * assigned to itself.
   */
  function PrecisionSetterAsWritten(f: Fixed, precision: real): (r: Result<Fixed>)
    ensures r.Success? <==> ValidatePrecision(precision).Success?
    ensures r.Failure? ==> r.error == PrecisionOutOfRange
    ensures r.Success? ==> r.value == f
  {
    match ValidatePrecision(precision)
    case Failure(e) => Failure(e)
    case Success(_) => Success(Fixed(MatchPrecision(f.value, f.precision, f.precision), f.precision))
  }

  /**
   * Setting precision 3 on 1.50 stored at 2 places keeps (150, 2) as written, where the
   * intended rescaling gives (1500, 3).
   */
  lemma PrecisionSetterCounterexample()
    ensures PrecisionSetterAsWritten(Fixed(150, 2), 3.0) == Success(Fixed(150, 2))
    ensures Rescale(Fixed(150, 2), 3.0) == Success(Fixed(1500, 3))
  {
    ValidateWholePrecision(3);
    assert Pow10(1) == 10;
  }

  /**
   * The precision change the setter evidently intends: validate the new precision and
   * rescale the stored integer to it with matchPrecision, exactly when adding places and
   * truncating toward zero when dropping them.
   */
  function Rescale(f: Fixed, precision: real): (r: Result<Fixed>)
    ensures r.Success? <==> ValidatePrecision(precision).Success?
    ensures r.Success? ==> r.value.precision == ValidatePrecision(precision).value
    ensures r.Success? && f.precision <= r.value.precision ==>
            r.value.value == f.value * Pow10(r.value.precision - f.precision)
    ensures r.Success? && r.value.precision < f.precision ==>
            r.value.value == TruncDiv(f.value, Pow10(f.precision - r.value.precision))
  {
    match ValidatePrecision(precision)
    case Failure(e) => Failure(e)
    case Success(p) =>
      if p < f.precision then
        MatchPrecisionTruncates(f.value, f.precision, p);
        Success(Fixed(MatchPrecision(f.value, f.precision, p), p))
      else
        Success(Fixed(MatchPrecision(f.value, f.precision, p), p))
  }

  /** Raising the precision and setting it back restores the amount exactly. */
  lemma RescaleRoundTrip(f: Fixed, p: nat)
    requires f.precision <= p <= MAX_PREC
    ensures Rescale(f, p as real).Success?
    ensures Rescale(Rescale(f, p as real).value, f.precision as real) == Success(f)
  {
    ValidateWholePrecision(p);
    ValidateWholePrecision(f.precision);
    MatchPrecisionRoundTrip(f.value, f.precision, p);
  }
}
