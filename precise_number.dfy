/**
 * The PreciseNumber class: two private fields, an unbounded integer and a count of decimal
 * places, written by the constructor, the `value` setter, the precision setter and
 * `_setInnerValue`. Operators and `clip`/`copy` build fresh instances (a zero at the
 * receiver's precision whose integer is then overwritten) and leave the receiver alone;
 * the value-level behaviour of every operation is the Engine function it is proved against.
 */
module PreciseNumbers {
  import opened Wrappers
  import opened Consts
  import opened Utils
  import opened Rounding
  import opened Engine

  class PreciseNumber {
    /** #value: the amount times 10^precision. */
    var value: int
    /** #precision: the number of decimal places, within [MIN_PREC, MAX_PREC]. */
    var precision: nat

    ghost predicate Valid()
      reads this
    {
      MIN_PREC <= precision <= MAX_PREC
    }

    /** The state as a value. */
    function Snapshot(): Fixed
      reads this
    {
      Fixed(value, precision)
    }

    /** new PreciseNumber(0, p) for a precision already validated: #value = 0n, #precision = p. */
    constructor Zero(p: nat)
      requires MIN_PREC <= p <= MAX_PREC
      ensures Valid() && value == 0 && precision == p
    {
      value := 0;
      precision := p;
    }

    /**
     * new PreciseNumber(x, precision): validate the precision, start from 0 at that precision,
     * then assign the value through the `value` setter. Fails exactly when Construct does,
     * with the same error, and otherwise holds Construct's amount.
     */
    static method New(x: Input, precision: real) returns (r: Result<PreciseNumber>)
      ensures r.Success? <==> Construct(x, precision).Success?
      ensures r.Failure? ==> r.error == Construct(x, precision).error
      ensures r.Success? ==> fresh(r.value) && r.value.Valid() &&
                             r.value.Snapshot() == Construct(x, precision).value
    {
      var checked := ValidatePrecision(precision);
      if checked.Failure? {
        return Failure(checked.error);
      }
      var n := new PreciseNumber.Zero(checked.value);
      var outcome := n.SetValue(x);
      if outcome.Fail? {
        return Failure(outcome.error);
      }
      return Success(n);
    }

    /**
     * The `value` setter: validate the operand, then store it scaled to the current
     * precision. On failure nothing is stored.
     */
    method SetValue(x: Input) returns (o: Outcome)
      requires Valid()
      modifies this
      ensures Valid() && precision == old(precision)
      ensures o.Pass? <==> Convert(x, old(precision)).Success?
      ensures o.Pass? ==> value == Convert(x, old(precision)).value
      ensures o.Fail? ==> o.error == Convert(x, old(precision)).error && value == old(value)
    {
      var scaled := Convert(x, precision);
      if scaled.Failure? {
        return Fail(scaled.error);
      }
      value := scaled.value;
      return Pass;
    }

    /** _setInnerValue: store a scaled integer as it is (a BigInt always passes validation). */
    method SetInnerValue(v: int)
      modifies this
      ensures value == v && precision == old(precision)
    {
      value := v;
    }

    /**
     * The precision setter as written: the new precision is validated, and then the stored
     * integer is rescaled from the stored precision to itself, so a valid precision changes
     * nothing and an invalid one fails with precision-out-of-range.
     */
    method SetPrecision(p: real) returns (o: Outcome)
      requires Valid()
      modifies this
      ensures Valid()
      ensures o.Pass? <==> ValidatePrecision(p).Success?
      ensures o.Fail? ==> o.error == PrecisionOutOfRange
      ensures Snapshot() == old(Snapshot())
      ensures o.Pass? ==> PrecisionSetterAsWritten(old(Snapshot()), p) == Success(Snapshot())
    {
      var checked := ValidatePrecision(p);
      if checked.Failure? {
        return Fail(checked.error);
      }
      value := MatchPrecision(value, precision, precision);
      precision := precision;
      return Pass;
    }

    /**
     * The precision change the setter evidently intends: validate the new precision and
     * rescale the stored integer to it. On failure nothing changes.
     */
    method RescaleTo(p: real) returns (o: Outcome)
      requires Valid()
      modifies this
      ensures Valid()
      ensures o.Pass? <==> Rescale(old(Snapshot()), p).Success?
      ensures o.Pass? ==> Snapshot() == Rescale(old(Snapshot()), p).value
      ensures o.Fail? ==> o.error == PrecisionOutOfRange && Snapshot() == old(Snapshot())
    {
      var checked := ValidatePrecision(p);
      if checked.Failure? {
        return Fail(checked.error);
      }
      value := MatchPrecision(value, precision, checked.value);
      precision := checked.value;
      return Pass;
    }

    /**
     * #executeOperation: validate every operand, scale each to the receiver's precision,
     * reduce, and return a fresh instance at the receiver's precision holding the result.
     * The receiver is not modified.
     */
    method ExecuteOperation(op: Operator, operands: seq<Input>) returns (r: Result<PreciseNumber>)
      requires Valid() && |operands| >= 1
      ensures r.Success? <==> Operate(op, precision, operands).Success?
      ensures r.Failure? ==> r.error == Operate(op, precision, operands).error
      ensures r.Success? ==> fresh(r.value) && r.value.Valid() &&
                             r.value.Snapshot() == Operate(op, precision, operands).value
    {
      var checked := CheckInputs(operands);
      if checked.Fail? {
        return Failure(checked.error);
      }
      var amounts := ScaleAll(operands, precision);
      if amounts.Failure? {
        return Failure(amounts.error);
      }
      var folded := Fold(op, precision, amounts.value[0], amounts.value[1..]);
      if folded.Failure? {
        return Failure(folded.error);
      }
      var result := new PreciseNumber.Zero(precision);
      result.SetInnerValue(folded.value);
      return Success(result);
    }

    /** add(...values): the operation on [this, ...values]; the result keeps this precision. */
    method Add(values: seq<Input>) returns (r: Result<PreciseNumber>)
      requires Valid()
      ensures r.Success? <==> Operate(Operator.Add, precision, [Instance(Snapshot())] + values).Success?
      ensures r.Failure? ==> r.error == Operate(Operator.Add, precision, [Instance(Snapshot())] + values).error
      ensures r.Success? ==> fresh(r.value) && r.value.Valid() &&
                             r.value.Snapshot() == Operate(Operator.Add, precision, [Instance(Snapshot())] + values).value
    {
      r := ExecuteOperation(Operator.Add, [Instance(Snapshot())] + values);
    }

    /** sub(...values). */
    method Sub(values: seq<Input>) returns (r: Result<PreciseNumber>)
      requires Valid()
      ensures r.Success? <==> Operate(Operator.Sub, precision, [Instance(Snapshot())] + values).Success?
      ensures r.Failure? ==> r.error == Operate(Operator.Sub, precision, [Instance(Snapshot())] + values).error
      ensures r.Success? ==> fresh(r.value) && r.value.Valid() &&
                             r.value.Snapshot() == Operate(Operator.Sub, precision, [Instance(Snapshot())] + values).value
    {
      r := ExecuteOperation(Operator.Sub, [Instance(Snapshot())] + values);
    }

    /** mul(...values). */
    method Mul(values: seq<Input>) returns (r: Result<PreciseNumber>)
      requires Valid()
      ensures r.Success? <==> Operate(Operator.Mul, precision, [Instance(Snapshot())] + values).Success?
      ensures r.Failure? ==> r.error == Operate(Operator.Mul, precision, [Instance(Snapshot())] + values).error
      ensures r.Success? ==> fresh(r.value) && r.value.Valid() &&
                             r.value.Snapshot() == Operate(Operator.Mul, precision, [Instance(Snapshot())] + values).value
    {
      r := ExecuteOperation(Operator.Mul, [Instance(Snapshot())] + values);
    }

    /** div(...values): fails when a divisor scales to 0. */
    method Div(values: seq<Input>) returns (r: Result<PreciseNumber>)
      requires Valid()
      ensures r.Success? <==> Operate(Operator.Div, precision, [Instance(Snapshot())] + values).Success?
      ensures r.Failure? ==> r.error == Operate(Operator.Div, precision, [Instance(Snapshot())] + values).error
      ensures r.Success? ==> fresh(r.value) && r.value.Valid() &&
                             r.value.Snapshot() == Operate(Operator.Div, precision, [Instance(Snapshot())] + values).value
    {
      r := ExecuteOperation(Operator.Div, [Instance(Snapshot())] + values);
    }

    /**
     * PreciseNumber.add(...values) and the other static operators: build an instance from the
     * first value at the default precision, then apply the operator with the rest.
     */
    static method StaticOperation(op: Operator, values: seq<Input>) returns (r: Result<PreciseNumber>)
      ensures r.Success? <==> StaticOperate(op, values).Success?
      ensures r.Failure? ==> r.error == StaticOperate(op, values).error
      ensures r.Success? ==> fresh(r.value) && r.value.Valid() && r.value.Snapshot() == StaticOperate(op, values).value
    {
      var first := if values == [] then Num("0") else values[0];
      var rest := if values == [] then [] else values[1..];
      var made := New(first, DEF_PREC as real);
      if made.Failure? {
        return Failure(made.error);
      }
      var n := made.value;
      r := n.ExecuteOperation(op, [Instance(n.Snapshot())] + rest);
    }

    /**
     * eq/gt/lt/gte/lte(value): #executeComparison with the receiver as the first side, both
     * sides scaled to the receiver's precision.
     */
    method Compare(cmp: Comparator, x: Input) returns (r: Result<bool>)
      requires Valid()
      ensures r == Engine.Compare(cmp, precision, Instance(Snapshot()), x)
    {
      var a := Instance(Snapshot());
      var checked := CheckInputs([a, x]);
      if checked.Fail? {
        return Failure(checked.error);
      }
      assert [a, x][0] == a && [a, x][1] == x;
      var left := Scale(a, precision);
      if left.Failure? {
        return Failure(left.error);
      }
      var right := Scale(x, precision);
      if right.Failure? {
        return Failure(right.error);
      }
      return Success(CompareInts(cmp, left.value, right.value));
    }

    /** PreciseNumber.eq(a, b) and the other static comparators. */
    static method StaticComparison(cmp: Comparator, a: Input, b: Input) returns (r: Result<bool>)
      ensures r == StaticCompare(cmp, a, b)
    {
      var made := New(a, DEF_PREC as real);
      if made.Failure? {
        return Failure(made.error);
      }
      r := made.value.Compare(cmp, b);
    }

    /**
     * round(to): the stored amount rounded half away from zero to `to` places (a negative
     * `to` counting as 0) and written with exactly that many fractional digits, '-' first
     * whenever the stored value is negative.
     */
    function Round(to: int): (s: string)
      reads this
      ensures s == FixedText(value < 0, HalfUp(Abs(value), precision, ClampPlaces(to)), ClampPlaces(to))
    {
      RoundTextSpec(value, precision, to);
      RoundText(value, precision, to)
    }

    /**
     * clip(to): a fresh instance at this precision built from the text of round(to); it
     * never fails, and holds ClipAmount.
     */
    method Clip(to: int) returns (r: PreciseNumber)
      requires Valid()
      ensures fresh(r) && r.Valid() && r.Snapshot() == ClipAmount(Snapshot(), to)
    {
      var text := RoundText(value, precision, to);
      ClipValue(Snapshot(), to);
      var made := New(Text(text), precision as real);
      r := made.value;
    }

    /** copy(): a fresh instance with the same integer and precision. */
    method Copy() returns (r: PreciseNumber)
      requires Valid()
      ensures fresh(r) && r.Valid() && r.Snapshot() == Snapshot()
    {
      r := new PreciseNumber.Zero(precision);
      r.SetInnerValue(value);
    }

    /** isPositive(): the stored integer is above 0, which is comparing above the number 0. */
    function IsPositive(): (b: bool)
      reads this
      ensures Engine.Compare(Gt, precision, Instance(Snapshot()), Num("0")) == Success(b)
    {
      SignChecks(Snapshot());
      value > 0
    }

    /** isNegative(). */
    function IsNegative(): (b: bool)
      reads this
      ensures Engine.Compare(Lt, precision, Instance(Snapshot()), Num("0")) == Success(b)
    {
      SignChecks(Snapshot());
      value < 0
    }

    /** isZero(). */
    function IsZero(): (b: bool)
      reads this
      ensures Engine.Compare(Eq, precision, Instance(Snapshot()), Num("0")) == Success(b)
    {
      SignChecks(Snapshot());
      value == 0
    }

    /**
     * toString() (and toJSON(), which returns the same text): the minimal decimal text of
     * the amount, which the scaler reads back to the stored integer at this precision.
     */
    function ToString(): (s: string)
      reads this
      ensures ScaleText(s, precision) == Success(value)
    {
      DecimalStringRoundTrip(value, precision);
      ToDecimalString(value, precision)
    }
  }
}
