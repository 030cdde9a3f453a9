/**
 * The two places where PreciseNumber rounds by looking at digits of a BigInt's text:
 * the product correction of `mul` (#neutralizedMul) and the string rounding of `round`.
 * Each is written the way the class computes it, on strings, and then proved equal to a
 * definition stated on numbers.
 */
module Rounding {
  import opened Digits
  import opened Utils

  /* ---------------- #neutralizedMul ---------------- */

  /**
   * String.prototype.charAt on BigInt text, then parseInt(c || '0') > 4: true exactly when
   * position k holds a digit 5 to 9. An index outside the text gives '', read as 0, and the
   * sign character '-' parses to NaN, which is not greater than 4.
   */
  predicate DigitAbove4(text: string, k: int)
  {
    0 <= k < |text| && IsDigit(text[k]) && DigitValue(text[k]) > 4
  }

  /**
   * #neutralizedMul(product, 10^p): the product of two values at p places brought back to p
   * places by truncating division, plus one when the character p places from the end of the
   * product's text is a digit 5 to 9 — whatever the product's sign.
   */
  function NeutralizedMul(product: int, p: nat): int
  {
    var final := TruncDiv(product, Pow10(p));
    var temp := IntToString(product);
    final + (if DigitAbove4(temp, |temp| - p) then 1 else 0)
  }

  /** The first digit that dividing |x| by 10^p discards (0 when p is 0). */
  function FirstDiscardedDigit(x: int, p: nat): nat
  {
    if p == 0 then 0 else DropDigits(Abs(x), p - 1) % 10
  }

  /**
   * #neutralizedMul adds one exactly when the first digit that the division discards from
   * the magnitude of the product is 5 to 9, for products of either sign.
   */
  lemma NeutralizedMulDigit(x: int, p: nat)
    ensures NeutralizedMul(x, p) == TruncDiv(x, Pow10(p)) + (if FirstDiscardedDigit(x, p) >= 5 then 1 else 0)
  {
    RoundingCharacter(x, p);
  }

  /** The character #neutralizedMul inspects is a digit 5 to 9 exactly when the first discarded digit is. */
  lemma RoundingCharacter(x: int, p: nat)
    ensures DigitAbove4(IntToString(x), |IntToString(x)| - p) <==> FirstDiscardedDigit(x, p) >= 5
  {
    var s := FromNat(Abs(x));
    var temp := IntToString(x);
    if p > |s| {
      ShortProduct(x, p, s, temp);
    } else if p > 0 {
      InsideProduct(x, p, s, temp);
    }
  }

  /** When p exceeds the digits of the product, no digit is inspected and none is discarded. */
  lemma ShortProduct(x: int, p: nat, s: string, temp: string)
    requires s == FromNat(Abs(x)) && temp == Sign(x < 0) + s && p > |s|
    ensures !DigitAbove4(temp, |temp| - p) && FirstDiscardedDigit(x, p) == 0
  {
    FromNatLength(Abs(x), p - 1);
    SmallDropsToZero(Abs(x), p - 1);
    if x < 0 && |temp| - p == 0 {
      assert temp[0] == '-';
    }
  }

  /** Otherwise the inspected character is the digit of the magnitude in the first discarded place. */
  lemma InsideProduct(x: int, p: nat, s: string, temp: string)
    requires s == FromNat(Abs(x)) && temp == Sign(x < 0) + s && 1 <= p <= |s|
    ensures DigitAbove4(temp, |temp| - p) <==> FirstDiscardedDigit(x, p) >= 5
  {
    DigitAt(s, |s| - p);
    assert temp[|temp| - p] == s[|s| - p];
  }

  /** A number below 10^k has nothing left once k digits are dropped. */
  lemma SmallDropsToZero(n: nat, k: nat)
    requires n < Pow10(k)
    ensures DropDigits(n, k) == 0
  {
    DropKeep(n, k);
    DivModUnique(n, Pow10(k), 0, n);
  }

  /** At precision 0 the product is kept as it is: no adjustment is ever made. */
  lemma NeutralizedMulAtPrecisionZero(x: int)
    ensures NeutralizedMul(x, 0) == x
  {
    NeutralizedMulDigit(x, 0);
    assert Pow10(0) == 1;
  }

  /**
   * The product of two values at p places rounded to p places half away from zero: the
   * magnitude rounded by HalfUp from 2p places to p places, with the product's sign.
   */
  function RoundedMul(product: int, p: nat): int
  {
    WithSign(product < 0, HalfUp(Abs(product), 2 * p, p))
  }

  /**
   * RoundedMul is a nearest value at p places: r/10^p is within half a unit (unit = 10^p)
   * of the exact quotient product/10^(2p), and a nonzero result has the product's sign.
   */
  lemma RoundedMulNearest(product: int, p: nat, r: int, unit: nat)
    requires r == RoundedMul(product, p) && unit == Pow10(p)
    ensures Abs(2 * r * unit - 2 * product) <= unit
    ensures r == 0 || (r < 0) == (product < 0)
  {
    HalfUpTwiceBound(Abs(product), p);
    SignedHalfBound(product, r, HalfUp(Abs(product), 2 * p, p), unit);
  }

  /** Rounding a magnitude from 2p places to p places lands within half a unit. */
  lemma HalfUpTwiceBound(x: nat, p: nat)
    ensures 2 * x - Pow10(p) < 2 * HalfUp(x, 2 * p, p) * Pow10(p) <= 2 * x + Pow10(p)
  {
    if p == 0 {
      HalfUpAtZeroPlaces(x);
    } else {
      HalfUpDropsPlaces(x, p);
    }
  }

  lemma HalfUpDropsPlaces(x: nat, p: nat)
    requires p > 0
    ensures 2 * x - Pow10(p) < 2 * HalfUp(x, 2 * p, p) * Pow10(p) <= 2 * x + Pow10(p)
  {
    assert 2 * p - p == p;
  }

  /** With no places on either side HalfUp changes nothing. */
  lemma HalfUpAtZeroPlaces(x: nat)
    ensures HalfUp(x, 0, 0) == x && Pow10(0) == 1
  {
    assert Pow10(0) == 1;
  }

  /** Putting the sign back keeps a magnitude within half a unit of |x| within half a unit of x. */
  lemma SignedHalfBound(x: int, r: int, m: nat, d: nat)
    requires 2 * Abs(x) - d < 2 * m * d <= 2 * Abs(x) + d
    requires r == WithSign(x < 0, m)
    ensures Abs(2 * r * d - 2 * x) <= d
  {
    if x < 0 {
      assert 2 * r * d == -(2 * m * d);
    }
  }

  /** Rounding half away from zero treats a product and its negation alike. */
  lemma RoundedMulSymmetric(x: int, p: nat)
    ensures RoundedMul(-x, p) == -RoundedMul(x, p)
  {
    var m := HalfUp(Abs(x), 2 * p, p);
    assert Abs(-x) == Abs(x);
    assert RoundedMul(-x, p) == WithSign(-x < 0, m);
    assert RoundedMul(x, p) == WithSign(x < 0, m);
    if x == 0 {
      HalfUpOfZero(2 * p, p);
    }
  }

  /** Zero stays zero at any number of places. */
  lemma HalfUpOfZero(from: nat, to: nat)
    ensures HalfUp(0, from, to) == 0
  {
    if to < from {
      var k := from - to;
      assert Pow10(k) == 10 * Pow10(k - 1);
      SmallDropsToZero(5 * Pow10(k - 1), k);
    }
  }

  /** For products that are not negative, #neutralizedMul rounds half away from zero. */
  lemma NeutralizedMulOfNonNegative(x: int, p: nat)
    requires x >= 0
    ensures NeutralizedMul(x, p) == RoundedMul(x, p)
  {
    NeutralizedMulDigit(x, p);
    RoundedMulDigit(x, p);
    TruncDivByPow10(x, p);
  }

  /** RoundedMul keeps the magnitude's leading digits and adds one when the first dropped digit is 5 to 9. */
  lemma RoundedMulDigit(x: int, p: nat)
    ensures RoundedMul(x, p) == WithSign(x < 0, DropDigits(Abs(x), p) + (if FirstDiscardedDigit(x, p) >= 5 then 1 else 0))
  {
    var n := DropDigits(Abs(x), p) + (if FirstDiscardedDigit(x, p) >= 5 then 1 else 0);
    HalfUpTwice(Abs(x), p);
    assert HalfUp(Abs(x), 2 * p, p) == n;
    assert RoundedMul(x, p) == WithSign(x < 0, HalfUp(Abs(x), 2 * p, p));
  }

  /** Rounding from 2p places to p places drops p digits and rounds on the first one dropped. */
  lemma HalfUpTwice(m: nat, p: nat)
    ensures HalfUp(m, 2 * p, p) == DropDigits(m, p) + (if p > 0 && DropDigits(m, p - 1) % 10 >= 5 then 1 else 0)
  {
    if p == 0 {
      assert Pow10(0) == 1;
    } else {
      RoundOnFirstDiscardedDigit(m, 2 * p, p);
      assert 2 * p - p == p;
    }
  }

  /** Truncating division of a magnitude by 10^p drops its last p digits. */
  lemma TruncDivByPow10(x: nat, p: nat)
    ensures TruncDiv(x, Pow10(p)) == DropDigits(x, p)
  {
    DropKeep(x, p);
  }

  /**
   * For a negative product the correction points the wrong way: -1.5 * 1.5 at one place is
   * the product -225, which #neutralizedMul turns into -21 (-2.1) although the nearest value
   * at one place is -23 (-2.3); -21 is not within half a unit of -22.5.
   */
  lemma NeutralizedMulNegativeCounterexample()
    ensures NeutralizedMul(-225, 1) == -21
    ensures RoundedMul(-225, 1) == -23
    ensures Abs(2 * NeutralizedMul(-225, 1) * Pow10(1) - 2 * -225) > Pow10(1)
  {
    NeutralizedMulDigit(-225, 1);
    assert Pow10(1) == 10;
    assert DropDigits(225, 0) == 225;
    assert TruncDiv(-225, 10) == -22;
    assert HalfUp(225, 2, 1) == 23 by {
      assert Pow10(2 - 1) == 10;
    }
  }

  /**
   * For a negative product #neutralizedMul and the corrected rounding differ by two units
   * exactly when the first discarded digit is 5 to 9: the +1 moves the result up (toward
   * zero, or past it) where rounding half away from zero moves it down.
   */
  lemma NeutralizedMulOfNegative(x: int, p: nat)
    requires x < 0
    ensures NeutralizedMul(x, p) == RoundedMul(x, p) + (if FirstDiscardedDigit(x, p) >= 5 then 2 else 0)
  {
    NeutralizedMulDigit(x, p);
    RoundedMulDigit(x, p);
    TruncDivByPow10(-x, p);
    assert TruncDiv(x, Pow10(p)) == -TruncDiv(-x, Pow10(p));
  }

  /**
   * A negative product smaller than one unit can even change sign: -0.1 * 0.5 at one place
   * is the product -5, which #neutralizedMul turns into +1 (+0.1) where the nearest value
   * at one place, ties away from zero, is -1 (-0.1).
   */
  lemma NeutralizedMulSignFlip()
    ensures NeutralizedMul(-5, 1) == 1
    ensures RoundedMul(-5, 1) == -1
  {
    NeutralizedMulOfNegative(-5, 1);
    assert DropDigits(5, 0) == 5;
    RoundedMulDigit(-5, 1);
    assert DropDigits(5, 1) == 0;
  }

  /* ---------------- round(to) ---------------- */

  /**
   * The split round performs twice: text of at least `places` digits cut `places` digits
   * from the end, with an empty integer part written as "0".
   */
  function PointSplit(rep: string, places: nat): (r: (string, string))
    requires |rep| >= places
    ensures |r.1| == places
  {
    var dpoint := |rep| - places;
    (if dpoint == 0 then "0" else rep[..dpoint], rep[dpoint..])
  }

  /**
   * The BigInt round builds and rounds: the integer part, the first `to` fractional digits and
   * any zeros needed to reach `to` places read as one number, plus one when fractional digit
   * `to` (parseInt(fraction[to]) || 0) is 5 to 9.
   */
  function RoundedDigits(whole: string, fraction: string, to: nat, precision: nat): nat
  {
    var trailingZeros := Zeros(if to > precision then to - precision else 0);
    var kept := fraction[..if to < |fraction| then to else |fraction|];
    var roundingDigit := if to < |fraction| && DigitValueOr0(fraction[to]) > 4 then 1 else 0;
    ReadDigits(whole + kept + trailingZeros) + roundingDigit
  }

  /** parseInt(c) || 0 on one character: its digit value, 0 for anything else. */
  function DigitValueOr0(c: char): nat
  {
    if IsDigit(c) then DigitValue(c) else 0
  }

  /** BigInt(text) on the digit strings round builds; any other text reads as 0. */
  function ReadDigits(s: string): nat
  {
    if AllDigits(s) then ToNat(s) else 0
  }

  /**
   * round(to) as the class computes it on strings: the magnitude's digits left-padded to the
   * precision and split at the point, the rounded BigInt's text padded to `to` digits and
   * split again, the sign of the stored value put in front, and no point when `to` is 0.
   * A negative `to` counts as 0.
   */
  function RoundText(v: int, precision: nat, requested: int): string
  {
    var to := ClampPlaces(requested);
    var (whole, fraction) := PointSplit(PadLeft(FromNat(Abs(v)), precision), precision);
    var lowPrecisionRep := PadLeft(FromNat(RoundedDigits(whole, fraction, to, precision)), to);
    var (newWhole, newFractional) := PointSplit(lowPrecisionRep, to);
    Sign(v < 0) + newWhole + PointTail(newFractional, to)
  }

  /** The number of places round(to) works with: `to` itself, or 0 when it is negative. */
  function ClampPlaces(requested: int): nat
  {
    if requested >= 0 then requested else 0
  }

  /** The point and the fractional digits, right-padded to `to`; nothing when there are none. */
  function PointTail(newFractional: string, to: nat): string
    requires |newFractional| <= to
  {
    var tail := "." + newFractional + Zeros(to - |newFractional|);
    if tail != "." then tail else ""
  }

  /** The `to` fractional digits of a magnitude n at `to` places, zero-padded on the left. */
  function Places(n: nat, to: nat): string
  {
    PadLeft(FromNat(KeepDigits(n, to)), to)
  }

  /**
   * A magnitude n at `to` places written out: an optional '-', the integer part, and when
   * `to` is positive a point followed by exactly `to` digits.
   */
  function FixedText(negative: bool, n: nat, to: nat): string
  {
    Sign(negative) + FromNat(DropDigits(n, to)) + (if to == 0 then "" else "." + Places(n, to))
  }

  /** The fractional digits of FixedText are `to` digits whose value is n's last `to` digits. */
  lemma PlacesDigits(n: nat, to: nat)
    requires to > 0
    ensures |Places(n, to)| == to && AllDigits(Places(n, to))
    ensures ToNat(Places(n, to)) == KeepDigits(n, to)
  {
    FromNatLength(KeepDigits(n, to), to);
    PadLeftValue(FromNat(KeepDigits(n, to)), to);
  }

  /**
   * The shape of FixedText: a leading '-' exactly when negative, no point at 0 places, and
   * otherwise a point followed by exactly `to` digits.
   */
  lemma FixedTextShape(negative: bool, n: nat, to: nat)
    ensures var s := FixedText(negative, n, to);
            (|s| > 0 && s[0] == '-') == negative &&
            (to == 0 ==> forall i :: 0 <= i < |s| ==> s[i] != '.') &&
            (to > 0 ==> |s| > to && s[|s| - to - 1] == '.' && AllDigits(s[|s| - to..]))
  {
    var s := FixedText(negative, n, to);
    var whole := FromNat(DropDigits(n, to));
    if to == 0 {
      assert s == Sign(negative) + whole;
      forall i | 0 <= i < |s| ensures s[i] != '.' {
        if negative && i == 0 {
        } else {
          assert s[i] == whole[i - |Sign(negative)|];
          assert IsDigit(whole[i - |Sign(negative)|]);
        }
      }
    } else {
      PlacesDigits(n, to);
      assert s == (Sign(negative) + whole + ".") + Places(n, to);
      assert s[|s| - to..] == Places(n, to);
    }
  }

  /**
   * round(to) is rounding half away from zero: the stored magnitude is re-expressed at `to`
   * places by HalfUp (exact zero-padding when `to` is at least the precision) and written
   * with FixedText, '-' included exactly when the stored value is negative, even when the
   * rounded magnitude is zero.
   */
  lemma RoundTextSpec(v: int, precision: nat, requested: int)
    ensures RoundText(v, precision, requested) ==
            FixedText(v < 0, HalfUp(Abs(v), precision, ClampPlaces(requested)), ClampPlaces(requested))
  {
    var to := ClampPlaces(requested);
    var rep := PadLeft(FromNat(Abs(v)), precision);
    var (whole, fraction) := PointSplit(rep, precision);
    SplitMagnitude(Abs(v), precision, rep, whole, fraction);
    RoundedDigitsHalfUp(whole, fraction, to, precision);
    var n := HalfUp(Abs(v), precision, to);
    var (newWhole, newFractional) := PointSplit(PadLeft(FromNat(n), to), to);
    WrittenAt(v < 0, n, to, newWhole, newFractional);
  }

  /** Splitting the padded digits of m at `precision` places keeps m's value and digits. */
  lemma SplitMagnitude(m: nat, precision: nat, rep: string, whole: string, fraction: string)
    requires rep == PadLeft(FromNat(m), precision)
    requires (whole, fraction) == PointSplit(rep, precision)
    ensures AllDigits(whole) && AllDigits(fraction) && |fraction| == precision
    ensures AllDigits(whole + fraction) && ToNat(whole + fraction) == m
  {
    PadLeftValue(FromNat(m), precision);
    SplitDigits(rep, precision, whole, fraction);
  }

  /** Splitting a digit string at a point `places` from the end keeps its digits and value. */
  lemma SplitDigits(rep: string, places: nat, whole: string, fraction: string)
    requires AllDigits(rep) && |rep| >= places
    requires (whole, fraction) == PointSplit(rep, places)
    ensures AllDigits(whole) && AllDigits(fraction) && |fraction| == places
    ensures AllDigits(whole + fraction) && ToNat(whole + fraction) == ToNat(rep)
  {
    if |rep| == places {
      assert whole == "0" && fraction == rep;
      LeadingZero(rep);
    } else {
      assert whole + fraction == rep;
    }
  }

  /** A leading zero does not change the value of a digit string. */
  lemma LeadingZero(s: string)
    requires AllDigits(s)
    ensures AllDigits("0" + s) && ToNat("0" + s) == ToNat(s)
  {
    ToNatAppend("0", s);
    assert ToNat("0") == 0;
  }

  /** The BigInt round builds, plus its rounding digit, is HalfUp of the split digits. */
  lemma RoundedDigitsHalfUp(whole: string, fraction: string, to: nat, precision: nat)
    requires AllDigits(whole) && AllDigits(fraction) && |fraction| == precision
    ensures AllDigits(whole + fraction)
    ensures RoundedDigits(whole, fraction, to, precision) == HalfUp(ToNat(whole + fraction), precision, to)
  {
    RoundedDigitsScaled(whole, fraction, to, precision);
    ScaledMagnitudeRounds(whole, fraction, to);
  }

  /** Round reads the same digits as the scaler does when it scales the split text to `to` places. */
  lemma RoundedDigitsScaled(whole: string, fraction: string, to: nat, precision: nat)
    requires AllDigits(whole) && AllDigits(fraction) && |fraction| == precision
    ensures RoundedDigits(whole, fraction, to, precision) == ScaledMagnitude(whole, fraction, to)
  {
    var trailingZeros := Zeros(if to > precision then to - precision else 0);
    var kept := fraction[..if to < |fraction| then to else |fraction|];
    var keptFraction := KeptFraction(fraction, to);
    KeptParts(fraction, to, precision);
    KeptFractionDigits(fraction, to);
    ToNatAppend(whole, keptFraction);
    ReadJoined(whole, kept, trailingZeros, keptFraction);
    if to < |fraction| {
      assert DigitValueOr0(fraction[to]) == DigitValue(fraction[to]);
    }
  }

  lemma ReadJoined(whole: string, kept: string, trailingZeros: string, keptFraction: string)
    requires kept + trailingZeros == keptFraction && AllDigits(whole + keptFraction)
    ensures ReadDigits(whole + kept + trailingZeros) == ToNat(whole + keptFraction)
  {
    assert whole + kept + trailingZeros == whole + keptFraction;
  }

  lemma KeptFractionDigits(fraction: string, to: nat)
    requires AllDigits(fraction)
    ensures AllDigits(KeptFraction(fraction, to))
  {
  }

  lemma KeptParts(fraction: string, to: nat, precision: nat)
    requires |fraction| == precision
    ensures fraction[..if to < |fraction| then to else |fraction|]
              + Zeros(if to > precision then to - precision else 0) == KeptFraction(fraction, to)
  {
    if to >= |fraction| {
      assert fraction[..|fraction|] == fraction;
    } else {
      assert Zeros(0) == "";
    }
  }

  /** Padding the rounded BigInt's text to `to` digits and splitting it gives FixedText. */
  lemma WrittenAt(negative: bool, n: nat, to: nat, newWhole: string, newFractional: string)
    requires (newWhole, newFractional) == PointSplit(PadLeft(FromNat(n), to), to)
    ensures Sign(negative) + newWhole + PointTail(newFractional, to) == FixedText(negative, n, to)
  {
    SplitWhole(n, to);
    assert |newFractional| == to;
    assert Zeros(0) == "";
    if to > 0 {
      SplitFraction(n, to);
    }
  }

  /** The integer part of the second split is the text of n with `to` digits dropped. */
  lemma SplitWhole(n: nat, to: nat)
    ensures PointSplit(PadLeft(FromNat(n), to), to).0 == FromNat(DropDigits(n, to))
  {
    var s := FromNat(n);
    if |s| > to {
      FromNatPrefix(n, to);
    } else {
      FromNatLength(n, to);
      SmallDropsToZero(n, to);
    }
  }

  /** The fractional part of the second split is Places(n, to). */
  lemma SplitFraction(n: nat, to: nat)
    requires to > 0
    ensures PointSplit(PadLeft(FromNat(n), to), to).1 == Places(n, to)
  {
    var s := FromNat(n);
    var low := PadLeft(s, to);
    var f := PointSplit(low, to).1;
    PlacesDigits(n, to);
    PadLeftValue(s, to);
    ToNatSplit(low, |low| - to);
    DropKeep(n, to);
    assert KeepDigits(ToNat(low), to) == KeepDigits(n, to);
    ToNatInjective(f, Places(n, to));
  }
}
