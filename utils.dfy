/**
 * The helpers the engine imports from its utilities file: the scaler (decimal text to a
 * scaled integer), matchPrecision (rescaling between precisions) and toDecimalString
 * (a scaled integer back to text), together with BigInt's truncating division and the
 * reference definition of rounding half away from zero that the engine's digit tricks
 * are measured against.
 */
module Utils {
  import opened Wrappers
  import opened Digits

  function Abs(x: int): nat { if x < 0 then -x else x }

  /** "-" for a negative value, nothing otherwise. */
  function Sign(negative: bool): string { if negative then "-" else "" }

  /** A magnitude with a sign put in front. */
  function WithSign(negative: bool, m: nat): (r: int)
    ensures Abs(r) == m && (r < 0 <==> negative && m > 0)
  {
    if negative then -(m as int) else m
  }

  /** BigInt's toString(): an optional minus sign followed by the digits of the magnitude. */
  function IntToString(v: int): string { Sign(v < 0) + FromNat(Abs(v)) }

  /** BigInt's `/`: the quotient truncated toward zero. */
  function TruncDiv(a: int, b: int): (q: int)
    requires b != 0
    ensures Abs(q) * Abs(b) <= Abs(a) < (Abs(q) + 1) * Abs(b)
    ensures q == 0 || ((q < 0) <==> ((a < 0) != (b < 0)))
  {
    var m := Abs(a) / Abs(b);
    QuotientBounds(Abs(a), Abs(b), m);
    var q := if (a < 0) == (b < 0) then m else -m;
    assert Abs(q) == m;
    q
  }

  /** The quotient q of n by d satisfies q*d <= n < (q+1)*d. */
  lemma QuotientBounds(n: nat, d: nat, q: int)
    requires d > 0 && q == n / d
    ensures q >= 0 && q * d <= n < (q + 1) * d
  {
    assert n == q * d + n % d;
    assert (q + 1) * d == q * d + d;
  }

  /**
   * A magnitude m given at `from` decimal places, re-expressed at `to` places and rounded
   * half up: the reference definition of rounding half away from zero on magnitudes, as
   * "add half a unit of the last kept place, then drop the extra digits".
   */
  function HalfUp(m: nat, from: nat, to: nat): (r: nat)
    ensures to >= from ==> r == m * Pow10(to - from)
    ensures to < from ==>
      2 * m - Pow10(from - to) < 2 * r * Pow10(from - to) <= 2 * m + Pow10(from - to)
  {
    if to >= from then m * Pow10(to - from)
    else
      HalfUpBound(m, from - to);
      DropDigits(m + 5 * Pow10(from - to - 1), from - to)
  }

  /** Adding half a unit and truncating lands within half a unit of m. */
  lemma HalfUpBound(m: nat, k: nat)
    requires k >= 1
    ensures 2 * m - Pow10(k) < 2 * DropDigits(m + 5 * Pow10(k - 1), k) * Pow10(k) <= 2 * m + Pow10(k)
  {
    var n := m + 5 * Pow10(k - 1);
    DropKeep(n, k);
    HalfWindow(m, Pow10(k - 1), Pow10(k), n, DropDigits(n, k), KeepDigits(n, k));
  }

  lemma HalfWindow(m: int, h: int, d: int, n: int, q: int, r: int)
    requires d == 10 * h && n == m + 5 * h && n == q * d + r && 0 <= r < d
    ensures 2 * m - d < 2 * q * d <= 2 * m + d
  {
    assert 2 * q * d == 2 * (q * d);
  }

  /**
   * Rounding on the first discarded digit is rounding half up: keeping the quotient by
   * 10^(from - to) and adding one when the next digit is 5 to 9 gives HalfUp.
   */
  lemma RoundOnFirstDiscardedDigit(m: nat, from: nat, to: nat)
    requires to < from
    ensures DropDigits(m, from - to) + (if DropDigits(m, from - to - 1) % 10 >= 5 then 1 else 0)
            == HalfUp(m, from, to)
  {
    var k := from - to;
    assert HalfUp(m, from, to) == DropDigits(m + 5 * Pow10(k - 1), k);
    DigitsRound(m, k);
  }

  /** Adding half a unit in the place of 10^k before dropping k digits rounds on the first dropped digit. */
  lemma DigitsRound(m: nat, k: nat)
    requires k >= 1
    ensures DropDigits(m + 5 * Pow10(k - 1), k) == DropDigits(m, k) + (if DropDigits(m, k - 1) % 10 >= 5 then 1 else 0)
  {
    var h := Pow10(k - 1);
    assert Pow10(k) == 10 * h;
    DropKeep(m, k);
    DropKeep(m, k - 1);
    DropKeep(m + 5 * h, k);
    RoundByDigit(m, h, DropDigits(m, k), DropDigits(m, k - 1), DropDigits(m + 5 * h, k));
  }

  /** Dividing m + 5h by 10h adds one to m / 10h exactly when the digit of m in the place of h is 5 to 9. */
  lemma RoundByDigit(m: nat, h: nat, q: nat, q1: nat, r: nat)
    requires h >= 1 && q == m / (10 * h) && q1 == m / h && r == (m + 5 * h) / (10 * h)
    ensures r == q + (if q1 % 10 >= 5 then 1 else 0)
  {
    DigitOfRemainder(m, h);
    DigitThreshold(m % (10 * h), h);
    AddHalfSplit(m, h);
  }

  /** The digit in the place of p is the leading digit of the remainder by 10p. */
  lemma DigitOfRemainder(m: nat, p: nat)
    requires p >= 1
    ensures (m / p) % 10 == (m % (10 * p)) / p
  {
    var d := 10 * p;
    var q, r := m / d, m % d;
    var rp, rr := r / p, r % p;
    assert rp < 10 by {
      if rp >= 10 { MulAtLeast(rp - 9, p); }
    }
    assert m == (10 * q + rp) * p + rr by {
      assert m == q * d + r;
      assert r == rp * p + rr;
      assert q * d == (10 * q) * p;
    }
    DivModUnique(m, p, 10 * q + rp, rr);
    DivModUnique(10 * q + rp, 10, q, rp);
  }

  lemma DigitThreshold(r: nat, p: nat)
    requires p >= 1 && r < 10 * p
    ensures r / p >= 5 <==> r >= 5 * p
  {
    var rp := r / p;
    assert r == rp * p + r % p;
    if rp >= 5 {
      MulAtLeast(rp - 4, p);
      assert (rp - 4) * p + 4 * p == rp * p;
    } else {
      MulAtLeast(5 - rp, p);
      assert (5 - rp) * p + rp * p == 5 * p;
    }
  }

  /** Adding half of 10p before dividing by 10p adds one exactly when the remainder is at least half. */
  lemma AddHalfSplit(m: nat, p: nat)
    requires p >= 1
    ensures (m + 5 * p) / (10 * p) == m / (10 * p) + (if m % (10 * p) >= 5 * p then 1 else 0)
  {
    var d := 10 * p;
    var q, r := m / d, m % d;
    assert m == q * d + r;
    if r >= 5 * p {
      assert m + 5 * p == (q + 1) * d + (r - 5 * p);
      DivModUnique(m + 5 * p, d, q + 1, r - 5 * p);
    } else {
      assert m + 5 * p == q * d + (r + 5 * p);
      DivModUnique(m + 5 * p, d, q, r + 5 * p);
    }
  }

  /** An exact multiple of the discarded scale rounds to itself. */
  lemma HalfUpOfMultiple(x: nat, from: nat, to: nat)
    requires to < from
    ensures HalfUp(x * Pow10(from - to), from, to) == x
  {
    var k := from - to;
    var h := Pow10(k - 1);
    var d := Pow10(k);
    assert d == 10 * h;
    DropKeep(x * d + 5 * h, k);
    DivModUnique(x * d + 5 * h, d, x, 5 * h);
  }

  /** Scaling up by 10^k and rounding back down is lossless. */
  lemma HalfUpUndoesScaling(m: nat, from: nat, to: nat)
    requires to <= from
    ensures HalfUp(HalfUp(m, to, from), from, to) == m
  {
    if to < from {
      HalfUpOfMultiple(m, from, to);
    }
  }

  /**
   * matchPrecision: an integer scaled to `from` places rescaled to `to` places, multiplying
   * by a power of ten or dividing by one with BigInt's truncating division.
   */
  function MatchPrecision(v: int, from: nat, to: nat): (r: int)
    ensures from == to ==> r == v
    ensures from <= to ==> r == v * Pow10(to - from)
    ensures to < from ==> Abs(r) == DropDigits(Abs(v), from - to) && (r == 0 || (r < 0) == (v < 0))
  {
    if to >= from then v * Pow10(to - from)
    else
      var q: int := DropDigits(Abs(v), from - to);
      if v < 0 then -q else q
  }

  /** Lowering the precision is BigInt division by a power of ten, truncated toward zero. */
  lemma MatchPrecisionTruncates(v: int, from: nat, to: nat)
    requires to < from
    ensures MatchPrecision(v, from, to) == TruncDiv(v, Pow10(from - to))
  {
    DropKeep(Abs(v), from - to);
  }

  /** Raising the precision and lowering it back restores the scaled integer. */
  lemma MatchPrecisionRoundTrip(v: int, from: nat, to: nat)
    requires from <= to
    ensures MatchPrecision(MatchPrecision(v, from, to), to, from) == v
  {
    if from < to {
      var d := Pow10(to - from);
      var w := v * d;
      assert Abs(w) == Abs(v) * d;
      DropKeep(Abs(w), to - from);
      DivModUnique(Abs(w), d, Abs(v), 0);
    }
  }

  /* ---------------- Decimal text ---------------- */

  /** A decimal literal split into its sign, its integer digits and its fractional digits. */
  datatype Decimal = Decimal(negative: bool, whole: string, fraction: string)

  /** Index of the first '.' in s, or |s| when there is none. */
  function PointIndex(s: string): (k: nat)
    ensures k <= |s|
    ensures k < |s| ==> s[k] == '.'
    ensures forall i :: 0 <= i < k ==> s[i] != '.'
  {
    if s == [] || s[0] == '.' then 0 else 1 + PointIndex(s[1..])
  }

  /**
   * Reads an optional '-', then digits with at most one '.', with at least one digit in all;
   * anything else (grouping separators, a second point, a lone '.', '' or '-') is refused.
   */
  function ParseDecimal(s: string): (r: Option<Decimal>)
    ensures r.Some? ==>
      AllDigits(r.value.whole) && AllDigits(r.value.fraction) &&
      |r.value.whole| + |r.value.fraction| >= 1
  {
    var negative := |s| > 0 && s[0] == '-';
    var body := if negative then s[1..] else s;
    var k := PointIndex(body);
    var whole := body[..k];
    var fraction := if k < |body| then body[k + 1..] else "";
    if AllDigits(whole) && AllDigits(fraction) && |whole| + |fraction| >= 1 then
      Some(Decimal(negative, whole, fraction))
    else
      None
  }

  /** Whatever the parser accepts is "[-]whole.fraction", or "[-]whole" with no fraction. */
  lemma ParseDecimalForm(s: string)
    requires ParseDecimal(s).Some?
    ensures var d := ParseDecimal(s).value;
            s == Sign(d.negative) + d.whole + "." + d.fraction ||
            (d.fraction == "" && s == Sign(d.negative) + d.whole)
  {
    var negative := |s| > 0 && s[0] == '-';
    var body := if negative then s[1..] else s;
    assert s == Sign(negative) + body by {
      if negative {
        assert s == [s[0]] + s[1..];
      }
    }
    Rejoin(s, negative, body, PointIndex(body));
  }

  lemma Rejoin(s: string, negative: bool, body: string, k: nat)
    requires s == Sign(negative) + body
    requires k <= |body| && (k < |body| ==> body[k] == '.')
    ensures k < |body| ==> s == Sign(negative) + body[..k] + "." + body[k + 1..]
    ensures k == |body| ==> s == Sign(negative) + body[..k]
  {
    SplitAtPoint(body, k);
    if k < |body| {
      assert Sign(negative) + body == Sign(negative) + (body[..k] + "." + body[k + 1..]);
    }
  }

  /** Cutting text at a '.' (or at its end) and putting it back together gives the text again. */
  lemma SplitAtPoint(body: string, k: nat)
    requires k <= |body| && (k < |body| ==> body[k] == '.')
    ensures k < |body| ==> body == body[..k] + "." + body[k + 1..]
    ensures k == |body| ==> body == body[..k]
  {
    if k < |body| {
      assert body == body[..k] + [body[k]] + body[k + 1..];
    }
  }

  /** The text form "[-]whole.fraction" is read back as exactly its parts. */
  lemma ParsePointed(negative: bool, whole: string, fraction: string)
    requires AllDigits(whole) && AllDigits(fraction) && |whole| + |fraction| >= 1
    ensures ParseDecimal(Sign(negative) + whole + "." + fraction) == Some(Decimal(negative, whole, fraction))
  {
    var body := whole + ("." + fraction);
    assert Sign(negative) + whole + "." + fraction == Sign(negative) + body;
    SignedBody(negative, body, Sign(negative) + body);
    PointIndexOfDigits(whole, "." + fraction);
    assert body[..|whole|] == whole;
    assert body[|whole| + 1..] == fraction;
  }

  /** A text without a point, "[-]whole", is read back with an empty fraction. */
  lemma ParseUnpointed(negative: bool, whole: string)
    requires AllDigits(whole) && |whole| >= 1
    ensures ParseDecimal(Sign(negative) + whole) == Some(Decimal(negative, whole, ""))
  {
    SignedBody(negative, whole, Sign(negative) + whole);
    PointIndexOfDigits(whole, "");
    assert whole + "" == whole;
    assert whole[..|whole|] == whole;
  }

  /** The parser strips exactly the sign: what follows it never starts with '-'. */
  lemma SignedBody(negative: bool, body: string, s: string)
    requires body == [] || body[0] != '-'
    requires s == Sign(negative) + body
    ensures (|s| > 0 && s[0] == '-') == negative && (if negative then s[1..] else s) == body
  {
    if negative {
      assert s[1..] == body;
    } else {
      assert s == body;
    }
  }

  /**
   * Any character other than a digit, the point or a leading '-' makes the text refused,
   * wherever it stands (grouping separators included).
   */
  lemma StrayCharacterRefused(s: string, i: nat)
    requires i < |s| && !IsDigit(s[i]) && s[i] != '.' && (i > 0 || s[i] != '-')
    ensures ParseDecimal(s) == None
  {
    var negative := |s| > 0 && s[0] == '-';
    var body := if negative then s[1..] else s;
    var j := if negative then i - 1 else i;
    assert 0 <= j < |body| && body[j] == s[i];
    var k := PointIndex(body);
    if j < k {
      assert body[..k][j] == body[j];
    } else {
      assert body[k + 1..][j - k - 1] == body[j];
    }
  }

  /** Text with two points is refused: the second one falls in the fraction. */
  lemma TwoPointsRefused(s: string, i: nat, j: nat)
    requires i < j < |s| && s[i] == '.' && s[j] == '.'
    ensures ParseDecimal(s) == None
  {
    var negative := |s| > 0 && s[0] == '-';
    var body := if negative then s[1..] else s;
    var shift := if negative then 1 else 0;
    assert body[i - shift] == '.' && body[j - shift] == '.';
    var k := PointIndex(body);
    assert k <= i - shift;
    assert body[k + 1..][j - shift - k - 1] == '.';
  }

  lemma {:induction false} PointIndexOfDigits(digits: string, rest: string)
    requires AllDigits(digits)
    requires rest == "" || rest[0] == '.'
    ensures PointIndex(digits + rest) == |digits|
  {
    if digits != [] {
      assert (digits + rest)[1..] == digits[1..] + rest;
      PointIndexOfDigits(digits[1..], rest);
    } else {
      assert digits + rest == rest;
    }
  }

  /** The p fractional digits the scaler keeps: truncated or right-padded with zeros. */
  function KeptFraction(fraction: string, p: nat): (r: string)
    ensures |r| == p
  {
    if |fraction| >= p then fraction[..p] else fraction + Zeros(p - |fraction|)
  }

  /**
   * The magnitude the scaler computes: integer digits and the first p fractional digits read
   * as one integer, plus one when the first discarded digit is 5 to 9.
   */
  function ScaledMagnitude(whole: string, fraction: string, p: nat): nat
    requires AllDigits(whole) && AllDigits(fraction)
  {
    var kept := KeptFraction(fraction, p);
    assert AllDigits(kept);
    ToNat(whole + kept) + (if |fraction| > p && DigitValue(fraction[p]) >= 5 then 1 else 0)
  }

  /** The scaler on a parsed literal: the scaled magnitude with the literal's sign. */
  function ScaleDecimal(d: Decimal, p: nat): int
    requires AllDigits(d.whole) && AllDigits(d.fraction)
  {
    WithSign(d.negative, ScaledMagnitude(d.whole, d.fraction, p))
  }

  /**
   * The amount a parsed literal stands for at p places: its digits read as one integer at
   * |fraction| places, re-expressed at p places rounding half away from zero, with its sign.
   */
  function LiteralAmount(d: Decimal, p: nat): int
    requires AllDigits(d.whole) && AllDigits(d.fraction)
  {
    assert AllDigits(d.whole + d.fraction);
    WithSign(d.negative, HalfUp(ToNat(d.whole + d.fraction), |d.fraction|, p))
  }

  /** scaler(text, p): the text's value times 10^p, or a parse failure. */
  function ScaleText(s: string, p: nat): Result<int>
  {
    match ParseDecimal(s)
    case None => Failure(ParseFailure)
    case Some(d) => Success(ScaleDecimal(d, p))
  }

  /**
   * The scaler succeeds exactly on plain decimal literals, with the literal's amount at p
   * places rounded half away from zero; anything else is a parse failure.
   */
  lemma ScaleTextAmount(s: string, p: nat)
    ensures ScaleText(s, p).Success? <==> ParseDecimal(s).Some?
    ensures ScaleText(s, p).Failure? ==> ScaleText(s, p).error == ParseFailure
    ensures ScaleText(s, p).Success? ==> ScaleText(s, p).value == LiteralAmount(ParseDecimal(s).value, p)
  {
    if ParseDecimal(s).Some? {
      var d := ParseDecimal(s).value;
      ScaledMagnitudeRounds(d.whole, d.fraction, p);
    }
  }

  /**
   * The scaler rounds half away from zero: the scaled magnitude is the literal's digits read
   * as one integer at |fraction| places, re-expressed at p places by HalfUp.
   */
  lemma ScaledMagnitudeRounds(whole: string, fraction: string, p: nat)
    requires AllDigits(whole) && AllDigits(fraction)
    ensures AllDigits(whole + fraction)
    ensures ScaledMagnitude(whole, fraction, p) == HalfUp(ToNat(whole + fraction), |fraction|, p)
  {
    ToNatAppend(whole, fraction);
    if |fraction| > p {
      ScaleDropsDigits(whole, fraction, p);
    } else if |fraction| == p {
      assert KeptFraction(fraction, p) == fraction;
    } else {
      ScalePadsDigits(whole, fraction, p);
    }
  }

  lemma ScaleDropsDigits(w: string, f: string, p: nat)
    requires AllDigits(w) && AllDigits(f) && |f| > p
    ensures AllDigits(w + f) && AllDigits(w + KeptFraction(f, p))
    ensures ToNat(w + KeptFraction(f, p)) + (if DigitValue(f[p]) >= 5 then 1 else 0)
            == HalfUp(ToNat(w + f), |f|, p)
  {
    var s := w + f;
    assert AllDigits(s);
    assert w + KeptFraction(f, p) == s[..|w| + p];
    ToNatSplit(s, |w| + p);
    assert f[p] == s[|w| + p];
    DigitAt(s, |w| + p);
    RoundOnFirstDiscardedDigit(ToNat(s), |f|, p);
  }

  lemma ScalePadsDigits(w: string, f: string, p: nat)
    requires AllDigits(w) && AllDigits(f) && |f| < p
    ensures AllDigits(w + f) && AllDigits(w + KeptFraction(f, p))
    ensures ToNat(w + KeptFraction(f, p)) == HalfUp(ToNat(w + f), |f|, p)
  {
    assert w + KeptFraction(f, p) == (w + f) + Zeros(p - |f|);
    AppendZerosValue(w + f, p - |f|);
  }

  /* ---------------- Rendering ---------------- */

  /** The longest prefix of s that does not end in '0'. */
  function StripTrailingZeros(s: string): (r: string)
    ensures |r| <= |s| && s == r + Zeros(|s| - |r|)
    ensures r == "" || r[|r| - 1] != '0'
  {
    if s != [] && s[|s| - 1] == '0' then
      var r := StripTrailingZeros(s[..|s| - 1]);
      assert Zeros(|s| - |r|) == Zeros(|s| - 1 - |r|) + "0";
      assert s == s[..|s| - 1] + "0";
      r
    else
      assert Zeros(0) == "";
      s
  }

  /** Stripping finds the one split of s into a prefix not ending in '0' and a run of zeros. */
  lemma StripUnique(s: string, f: string, k: nat)
    requires s == f + Zeros(k) && (f == "" || f[|f| - 1] != '0')
    ensures StripTrailingZeros(s) == f
  {
    var r := StripTrailingZeros(s);
    if f != "" {
      assert s[|f| - 1] == f[|f| - 1];
    }
    assert |f| <= |r|;
    if r != "" {
      assert s[|r| - 1] == r[|r| - 1];
    }
    assert |r| <= |f|;
    assert r == s[..|r|] && f == s[..|f|];
  }

  /** The fractional digits toDecimalString prints for a magnitude m at p places. */
  function PrintedFraction(m: nat, p: nat): string
  {
    StripTrailingZeros(PadLeft(FromNat(KeepDigits(m, p)), p))
  }

  /**
   * toDecimalString(v, p): the scaled integer v at p places as minimal decimal text, with
   * trailing fractional zeros and an empty fraction dropped and the sign kept.
   */
  function ToDecimalString(v: int, p: nat): string
  {
    var fraction := PrintedFraction(Abs(v), p);
    Sign(v < 0) + FromNat(DropDigits(Abs(v), p)) + (if fraction == "" then "" else "." + fraction)
  }

  /** The printed fraction is digits, and padding it back to p places restores m's last p digits. */
  lemma PrintedFractionDigits(m: nat, p: nat)
    ensures AllDigits(PrintedFraction(m, p)) && |PrintedFraction(m, p)| <= p
    ensures AllDigits(FromNat(DropDigits(m, p)) + KeptFraction(PrintedFraction(m, p), p))
    ensures ToNat(FromNat(DropDigits(m, p)) + KeptFraction(PrintedFraction(m, p), p)) == m
  {
    var whole := FromNat(DropDigits(m, p));
    if p == 0 {
      assert PadLeft(FromNat(KeepDigits(m, 0)), 0) == "0";
      assert PrintedFraction(m, 0) == "";
      assert whole + KeptFraction("", 0) == whole;
    } else {
      var digits := FromNat(KeepDigits(m, p));
      PadLeftValue(digits, p);
      FromNatLength(KeepDigits(m, p), p);
      StrippedKeeps(PadLeft(digits, p), PrintedFraction(m, p), p);
      ToNatAppend(whole, PadLeft(digits, p));
      DropKeep(m, p);
    }
  }

  /** Stripping trailing zeros from p digits and padding back to p places gives the digits back. */
  lemma StrippedKeeps(padded: string, fraction: string, p: nat)
    requires AllDigits(padded) && |padded| == p && fraction == StripTrailingZeros(padded)
    ensures AllDigits(fraction) && |fraction| <= p && KeptFraction(fraction, p) == padded
  {
    assert padded == fraction + Zeros(p - |fraction|);
    forall i | 0 <= i < |fraction| ensures IsDigit(fraction[i]) {
      assert fraction[i] == padded[i];
    }
    if |fraction| == p {
      assert Zeros(0) == "";
    }
  }

  /** toDecimalString loses nothing: the scaler reads its text back to the same integer. */
  lemma DecimalStringRoundTrip(v: int, p: nat)
    ensures ScaleText(ToDecimalString(v, p), p) == Success(v)
  {
    var m := Abs(v);
    var d := Decimal(v < 0, FromNat(DropDigits(m, p)), PrintedFraction(m, p));
    PrintedFractionDigits(m, p);
    PrintedDecimalParses(v, p);
    PrintedDecimalScales(v, p);
    assert ParseDecimal(ToDecimalString(v, p)) == Some(d);
  }

  /** The scaler splits toDecimalString's text back into its sign, whole part and fraction. */
  lemma PrintedDecimalParses(v: int, p: nat)
    ensures ParseDecimal(ToDecimalString(v, p)) ==
            Some(Decimal(v < 0, FromNat(DropDigits(Abs(v), p)), PrintedFraction(Abs(v), p)))
  {
    var m := Abs(v);
    var whole := FromNat(DropDigits(m, p));
    var fraction := PrintedFraction(m, p);
    PrintedFractionDigits(m, p);
    var s := ToDecimalString(v, p);
    if fraction == "" {
      assert s == Sign(v < 0) + whole;
      ParseUnpointed(v < 0, whole);
    } else {
      assert s == Sign(v < 0) + whole + "." + fraction;
      ParsePointed(v < 0, whole, fraction);
    }
  }

  /** The parts toDecimalString prints scale back to the integer they were printed from. */
  lemma PrintedDecimalScales(v: int, p: nat)
    ensures AllDigits(FromNat(DropDigits(Abs(v), p))) && AllDigits(PrintedFraction(Abs(v), p))
    ensures ScaleDecimal(Decimal(v < 0, FromNat(DropDigits(Abs(v), p)), PrintedFraction(Abs(v), p)), p) == v
  {
    PrintedFractionDigits(Abs(v), p);
  }
}
