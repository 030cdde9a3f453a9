/**
 * The examples the repository's tests check, stated on the model: the scaler, input validity,
 * toDecimalString, construction through the maker, one sum and one comparison at two places.
 */
module Vectors {
  import opened Wrappers
  import opened Digits
  import opened Utils
  import opened Engine

  /**
   * A literal "[-]whole.fraction" whose digits, read as one integer, make n scales to
   * HalfUp(n) from |fraction| places to p, with its sign.
   */
  lemma PointedLiteral(s: string, negative: bool, whole: string, fraction: string, p: nat,
                       w: nat, f: nat, unit: nat, n: nat, m: nat)
    requires AllDigits(whole) && AllDigits(fraction) && |whole| + |fraction| >= 1
    requires s == Sign(negative) + whole + "." + fraction
    requires ToNat(whole) == w && ToNat(fraction) == f && unit == Pow10(|fraction|)
    requires n == w * unit + f && HalfUp(n, |fraction|, p) == m
    ensures ScaleText(s, p) == Success(WithSign(negative, m))
  {
    ParsePointed(negative, whole, fraction);
    ScaledMagnitudeRounds(whole, fraction, p);
    ToNatAppend(whole, fraction);
    assert ToNat(whole + fraction) == n;
    assert ScaledMagnitude(whole, fraction, p) == m;
    assert ScaleDecimal(Decimal(negative, whole, fraction), p) == WithSign(negative, m);
  }

  /** scaler(".2", 0): a fraction with no integer digits, rounded away. */
  lemma ScalerPointTwoAtZero()
    ensures ScaleText(".2", 0) == Success(0)
  {
    PointedLiteral(".2", false, "", "2", 0, 0, 2, 10, 2, 0);
  }

  /** scaler(".2", 1). */
  lemma ScalerPointTwoAtOne()
    ensures ScaleText(".2", 1) == Success(2)
  {
    PointedLiteral(".2", false, "", "2", 1, 0, 2, 10, 2, 2);
  }

  /** scaler("22.2", 2) pads the fraction with a zero. */
  lemma ScalerPads()
    ensures ScaleText("22.2", 2) == Success(2220)
  {
    PointedLiteral("22.2", false, "22", "2", 2, 22, 2, 10, 222, 2220);
  }

  /** scaler("22.2", 0) drops the fraction, whose first digit is below 5. */
  lemma ScalerDrops()
    ensures ScaleText("22.2", 0) == Success(22)
  {
    PointedLiteral("22.2", false, "22", "2", 0, 22, 2, 10, 222, 22);
  }

  /** scaler("55.555", 2) rounds up on the third fractional digit. */
  lemma ScalerRoundsUp()
    ensures ScaleText("55.555", 2) == Success(5556)
  {
    PointedLiteral("55.555", false, "55", "555", 2, 55, 555, 1000, 55555, 5556);
  }

  /** scaler("55.555", 6) pads with zeros. */
  lemma ScalerPadsMore()
    ensures ScaleText("55.555", 6) == Success(55555000)
  {
    PointedLiteral("55.555", false, "55", "555", 6, 55, 555, 1000, 55555, 55555000);
  }

  /** scaler("-55.555", 6) keeps the sign. */
  lemma ScalerPadsNegative()
    ensures ScaleText("-55.555", 6) == Success(-55555000)
  {
    PointedLiteral("-55.555", true, "55", "555", 6, 55, 555, 1000, 55555, 55555000);
  }

  /** scaler("2.555", 2) == 256: half rounds up. */
  lemma ScalerHalfUp()
    ensures ScaleText("2.555", 2) == Success(256)
  {
    PointedLiteral("2.555", false, "2", "555", 2, 2, 555, 1000, 2555, 256);
  }

  /** scaler("-2.555", 2) == -256: half rounds away from zero. */
  lemma ScalerHalfAwayFromZero()
    ensures ScaleText("-2.555", 2) == Success(-256)
  {
    PointedLiteral("-2.555", true, "2", "555", 2, 2, 555, 1000, 2555, 256);
  }

  /** A literal "[-]whole" whose digits read as w scales to HalfUp(w) from 0 places to p, with its sign. */
  lemma WholeLiteral(s: string, negative: bool, whole: string, p: nat, w: nat, m: nat)
    requires AllDigits(whole) && |whole| >= 1
    requires s == Sign(negative) + whole
    requires ToNat(whole) == w && HalfUp(w, 0, p) == m
    ensures ScaleText(s, p) == Success(WithSign(negative, m))
  {
    ParseUnpointed(negative, whole);
    ScaledMagnitudeRounds(whole, "", p);
    assert whole + "" == whole;
    assert ScaledMagnitude(whole, "", p) == m;
    assert ScaleDecimal(Decimal(negative, whole, ""), p) == WithSign(negative, m);
  }

  /** scaler(22, 0) == 22: a whole number. */
  lemma ScalerWholeNumber()
    ensures Scale(Num("22"), 0) == Success(22)
  {
    WholeLiteral("22", false, "22", 0, 22, 22);
  }

  /** scaler(-22, 0) == -22. */
  lemma ScalerNegativeWholeNumber()
    ensures Scale(Num("-22"), 0) == Success(-22)
  {
    WholeLiteral("-22", true, "22", 0, 22, 22);
  }

  /** scaler(22.555, 0) == 23. */
  lemma ScalerNumberToWhole()
    ensures Scale(Num("22.555"), 0) == Success(23)
  {
    PointedLiteral("22.555", false, "22", "555", 0, 22, 555, 1000, 22555, 23);
  }

  /** scaler(-22.555, 0) == -23. */
  lemma ScalerNegativeNumberToWhole()
    ensures Scale(Num("-22.555"), 0) == Success(-23)
  {
    PointedLiteral("-22.555", true, "22", "555", 0, 22, 555, 1000, 22555, 23);
  }

  /** scaler(22.555, 2) == 2256. */
  lemma ScalerNumberToCents()
    ensures Scale(Num("22.555"), 2) == Success(2256)
  {
    PointedLiteral("22.555", false, "22", "555", 2, 22, 555, 1000, 22555, 2256);
  }

  /** scaler(-22.555, 2) == -2256. */
  lemma ScalerNegativeNumberToCents()
    ensures Scale(Num("-22.555"), 2) == Success(-2256)
  {
    PointedLiteral("-22.555", true, "22", "555", 2, 22, 555, 1000, 22555, 2256);
  }

  /** The input-validity examples: a point may open or close the literal. */
  lemma LeadingPointAccepted()
    ensures ParseDecimal(".22") == Some(Decimal(false, "", "22"))
  {
    assert ".22" == Sign(false) + "" + "." + "22";
    ParsePointed(false, "", "22");
  }

  lemma TrailingPointAccepted()
    ensures ParseDecimal("22.") == Some(Decimal(false, "22", ""))
  {
    assert "22." == Sign(false) + "22" + "." + "";
    ParsePointed(false, "22", "");
  }

  /** A lone point, a second point and grouping separators are refused. */
  lemma LonePointRefused()
    ensures ParseDecimal(".") == None
  {
  }

  lemma SecondPointRefused()
    ensures ParseDecimal("22.22.22") == None
  {
    TwoPointsRefused("22.22.22", 2, 5);
  }

  lemma CommaRefused()
    ensures ParseDecimal("22,22,22") == None
  {
    StrayCharacterRefused("22,22,22", 2);
  }

  lemma UnderscoreRefused()
    ensures ParseDecimal("22_22_22") == None
  {
    StrayCharacterRefused("22_22_22", 2);
  }

  /**
   * toDecimalString(v, p) for p >= 1, once |v| is split into q * 10^p + r: the canonical digits
   * of q, then the p-digit form of r with its trailing zeros stripped, after a point unless empty.
   */
  lemma DecimalTextOf(v: int, p: nat, unit: nat, q: nat, r: nat, whole: string, padded: string, fraction: string,
                      text: string)
    requires p >= 1 && unit == Pow10(p) && Abs(v) == q * unit + r && r < unit
    requires AllDigits(whole) && |whole| >= 1 && (|whole| == 1 || whole[0] != '0') && ToNat(whole) == q
    requires AllDigits(padded) && |padded| == p && ToNat(padded) == r
    requires |fraction| <= p && padded == fraction + Zeros(p - |fraction|) && (fraction == "" || fraction[|fraction| - 1] != '0')
    requires text == Sign(v < 0) + whole + (if fraction == "" then "" else "." + fraction)
    ensures ToDecimalString(v, p) == text
  {
    StripUnique(padded, fraction, p - |fraction|);
    DropKeep(Abs(v), p);
    DivModUnique(Abs(v), unit, q, r);
    Canonical(whole);
    FromNatLength(r, p);
    PadLeftValue(FromNat(r), p);
    ToNatInjective(PadLeft(FromNat(r), p), padded);
    assert PrintedFraction(Abs(v), p) == fraction;
  }

  /** toDecimalString(0n, 5) == "0". */
  lemma DecimalStringZero()
    ensures ToDecimalString(0, 5) == "0"
  {
    assert Sign(false) + "0" + "" == "0";
    ToNatZeros(5);
    DecimalTextOf(0, 5, 100000, 0, 0, "0", Zeros(5), "", "0");
  }

  /** toDecimalString(1n, 1) == "0.1". */
  lemma DecimalStringTenth()
    ensures ToDecimalString(1, 1) == "0.1"
  {
    assert Sign(false) + "0" + "." + "1" == "0.1";
    DecimalTextOf(1, 1, 10, 0, 1, "0", "1", "1", "0.1");
  }

  /** toDecimalString(-1n, 1) == "-0.1". */
  lemma DecimalStringNegativeTenth()
    ensures ToDecimalString(-1, 1) == "-0.1"
  {
    assert Sign(true) + "0" + "." + "1" == "-0.1";
    DecimalTextOf(-1, 1, 10, 0, 1, "0", "1", "1", "-0.1");
  }

  /** toDecimalString(100n, 3) == "0.1": trailing zeros are dropped. */
  lemma DecimalStringStripsZeros()
    ensures ToDecimalString(100, 3) == "0.1"
  {
    assert Sign(false) + "0" + "." + "1" == "0.1";
    assert "100" == "1" + Zeros(2);
    DecimalTextOf(100, 3, 1000, 0, 100, "0", "100", "1", "0.1");
  }

  /** toDecimalString(-100n, 3) == "-0.1": trailing zeros are dropped. */
  lemma DecimalStringNegativeStripsZeros()
    ensures ToDecimalString(-100, 3) == "-0.1"
  {
    assert Sign(true) + "0" + "." + "1" == "-0.1";
    assert "100" == "1" + Zeros(2);
    DecimalTextOf(-100, 3, 1000, 0, 100, "0", "100", "1", "-0.1");
  }

  /** toDecimalString(22n, 1) == "2.2". */
  lemma DecimalStringOnePlace()
    ensures ToDecimalString(22, 1) == "2.2"
  {
    assert Sign(false) + "2" + "." + "2" == "2.2";
    DecimalTextOf(22, 1, 10, 2, 2, "2", "2", "2", "2.2");
  }

  /** toDecimalString(-22n, 1) == "-2.2". */
  lemma DecimalStringNegativeOnePlace()
    ensures ToDecimalString(-22, 1) == "-2.2"
  {
    assert Sign(true) + "2" + "." + "2" == "-2.2";
    DecimalTextOf(-22, 1, 10, 2, 2, "2", "2", "2", "-2.2");
  }

  /** toDecimalString(22n, 2) == "0.22". */
  lemma DecimalStringTwoPlaces()
    ensures ToDecimalString(22, 2) == "0.22"
  {
    assert Sign(false) + "0" + "." + "22" == "0.22";
    DecimalTextOf(22, 2, 100, 0, 22, "0", "22", "22", "0.22");
  }

  /** toDecimalString(-22n, 2) == "-0.22". */
  lemma DecimalStringNegativeTwoPlaces()
    ensures ToDecimalString(-22, 2) == "-0.22"
  {
    assert Sign(true) + "0" + "." + "22" == "-0.22";
    DecimalTextOf(-22, 2, 100, 0, 22, "0", "22", "22", "-0.22");
  }

  /** toDecimalString(22n, 3) == "0.022": the fraction is padded on the left. */
  lemma DecimalStringPadsFraction()
    ensures ToDecimalString(22, 3) == "0.022"
  {
    assert Sign(false) + "0" + "." + "022" == "0.022";
    DecimalTextOf(22, 3, 1000, 0, 22, "0", "022", "022", "0.022");
  }

  /** toDecimalString(-22n, 3) == "-0.022": the fraction is padded on the left. */
  lemma DecimalStringNegativePadsFraction()
    ensures ToDecimalString(-22, 3) == "-0.022"
  {
    assert Sign(true) + "0" + "." + "022" == "-0.022";
    DecimalTextOf(-22, 3, 1000, 0, 22, "0", "022", "022", "-0.022");
  }

  /** toDecimalString(222000n, 3) == "222": an all-zero fraction is dropped with its point. */
  lemma DecimalStringDropsPoint()
    ensures ToDecimalString(222000, 3) == "222"
  {
    assert Sign(false) + "222" + "" == "222";
    assert "000" == "" + Zeros(3);
    DecimalTextOf(222000, 3, 1000, 222, 0, "222", "000", "", "222");
  }

  /** toDecimalString(-222000n, 3) == "-222": an all-zero fraction is dropped with its point. */
  lemma DecimalStringNegativeDropsPoint()
    ensures ToDecimalString(-222000, 3) == "-222"
  {
    assert Sign(true) + "222" + "" == "-222";
    assert "000" == "" + Zeros(3);
    DecimalTextOf(-222000, 3, 1000, 222, 0, "222", "000", "", "-222");
  }

  /** toDecimalString(222100n, 3) == "222.1". */
  lemma DecimalStringKeepsDigit()
    ensures ToDecimalString(222100, 3) == "222.1"
  {
    assert Sign(false) + "222" + "." + "1" == "222.1";
    assert "100" == "1" + Zeros(2);
    DecimalTextOf(222100, 3, 1000, 222, 100, "222", "100", "1", "222.1");
  }

  /** toDecimalString(-222100n, 3) == "-222.1". */
  lemma DecimalStringNegativeKeepsDigit()
    ensures ToDecimalString(-222100, 3) == "-222.1"
  {
    assert Sign(true) + "222" + "." + "1" == "-222.1";
    assert "100" == "1" + Zeros(2);
    DecimalTextOf(-222100, 3, 1000, 222, 100, "222", "100", "1", "-222.1");
  }

  /** toDecimalString(v, 0): the canonical digits of |v| with its sign and no point. */
  lemma WholeTextOf(v: int, whole: string)
    requires AllDigits(whole) && |whole| >= 1 && (|whole| == 1 || whole[0] != '0') && ToNat(whole) == Abs(v)
    ensures ToDecimalString(v, 0) == Sign(v < 0) + whole
  {
    Canonical(whole);
    assert PadLeft(FromNat(KeepDigits(Abs(v), 0)), 0) == "0";
    assert StripTrailingZeros("0") == "";
  }

  /** toDecimalString(22n, 0) == "22". */
  lemma DecimalStringWhole()
    ensures ToDecimalString(22, 0) == "22"
  {
    assert Sign(false) + "22" == "22";
    WholeTextOf(22, "22");
  }

  /** toDecimalString(-22n, 0) == "-22". */
  lemma DecimalStringNegativeWhole()
    ensures ToDecimalString(-22, 0) == "-22"
  {
    assert Sign(true) + "22" == "-22";
    WholeTextOf(-22, "22");
  }

  /** p(2.555, 2) holds 256 at two places. */
  lemma MakerRounds()
    ensures Construct(Num("2.555"), 2.0) == Success(Fixed(256, 2))
  {
    ValidateWholePrecision(2);
    ScalerHalfUp();
  }

  /** At two places, p(0.1) holds 10. */
  lemma MakerTenth()
    ensures Construct(Num("0.1"), 2.0) == Success(Fixed(10, 2))
  {
    ValidateWholePrecision(2);
    PointedLiteral("0.1", false, "0", "1", 2, 0, 1, 10, 1, 10);
  }

  /** A receiver at p places and a valid operand that scales to y are scaled together to [value, y]. */
  lemma ScaleTwo(p: nat, f: Fixed, b: Input, y: int)
    requires f.precision == p && IsValidInput(b) && Scale(b, p) == Success(y)
    ensures ScaleAll([Instance(f), b], p) == Success([f.value, y])
  {
    var xs := [Instance(f), b];
    assert xs[1..] == [b];
    ScaleOne(p, b, y);
    assert [f.value] + [y] == [f.value, y];
  }

  /** One valid operand that scales to y is scaled to [y]. */
  lemma ScaleOne(p: nat, b: Input, y: int)
    requires IsValidInput(b) && Scale(b, p) == Success(y)
    ensures ScaleAll([b], p) == Success([y])
  {
    assert [b][0] == b && [b][1..] == [];
    assert [y] + [] == [y];
  }

  /** A receiver at p places and a valid operand that scales to y, reduced into v. */
  lemma OperateTwo(op: Operator, p: nat, f: Fixed, b: Input, y: int, v: int)
    requires f.precision == p && IsValidInput(b) && Scale(b, p) == Success(y)
    requires Fold(op, p, f.value, [y]) == Success(v)
    ensures Operate(op, p, [Instance(f), b]) == Success(Fixed(v, p))
  {
    ScaleTwo(p, f, b, y);
    assert [f.value, y][1..] == [y];
    OperateScaled(op, p, [Instance(f), b], [f.value, y], v);
  }

  /** At two places, p(0.1).add(0.2) holds 30: the receiver is the 10 of MakerTenth. */
  lemma AddTenthAndFifth()
    ensures Operate(Operator.Add, 2, [Instance(Fixed(10, 2)), Num("0.2")]) == Success(Fixed(30, 2))
  {
    PointedLiteral("0.2", false, "0", "2", 2, 0, 2, 10, 2, 20);
    FoldAdd(2, 10, [20]);
    assert Sum([20]) == 20;
    OperateTwo(Operator.Add, 2, Fixed(10, 2), Num("0.2"), 20, 30);
  }

  /** At two places, p(0.1).eq(0.2) is false. */
  lemma TenthIsNotFifth()
    ensures Compare(Eq, 2, Instance(Fixed(10, 2)), Num("0.2")) == Success(false)
  {
    PointedLiteral("0.2", false, "0", "2", 2, 0, 2, 10, 2, 20);
    CompareAt(Eq, 2, Instance(Fixed(10, 2)), Num("0.2"), 10, 20);
  }
}
