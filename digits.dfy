/**
 * Decimal digit strings and the non-negative integers they denote: the behaviour
 * of BigInt's toString() and of BigInt(text) on digit strings, which the engine
 * relies on when it rounds by slicing strings.
 */
module Digits {

  /** 10^k, the scale factor ("neutralizer") of k decimal places. */
  function Pow10(k: nat): (r: nat)
    ensures r >= 1
    ensures k > 0 ==> r >= 10 && r % 10 == 0
  {
    if k == 0 then 1 else 10 * Pow10(k - 1)
  }

  lemma {:induction false} Pow10Add(a: nat, b: nat)
    ensures Pow10(a + b) == Pow10(a) * Pow10(b)
  {
    if b > 0 {
      Pow10Add(a, b - 1);
      ScaleProduct(Pow10(a), Pow10(b - 1), Pow10(a + b - 1));
    }
  }

  lemma ScaleProduct(x: int, y: int, z: int)
    requires z == x * y
    ensures 10 * z == x * (10 * y)
  {
  }

  lemma Pow10Le(a: nat, b: nat)
    requires a <= b
    ensures Pow10(a) <= Pow10(b)
    ensures Pow10(b) % Pow10(a) == 0
    ensures Pow10(b) / Pow10(a) == Pow10(b - a)
  {
    Pow10Add(b - a, a);
    MulAtLeast(Pow10(b - a), Pow10(a));
    DivModUnique(Pow10(b), Pow10(a), Pow10(b - a), 0);
  }

  /** n with its last k decimal digits dropped (n / 10^k). */
  function DropDigits(n: nat, k: nat): nat
  {
    if k == 0 then n else DropDigits(n / 10, k - 1)
  }

  /** The last k decimal digits of n (n % 10^k). */
  function KeepDigits(n: nat, k: nat): (r: nat)
    ensures r < Pow10(k)
  {
    if k == 0 then 0 else n % 10 + 10 * KeepDigits(n / 10, k - 1)
  }

  /** A number is its leading digits shifted left plus its last k digits. */
  lemma DropKeep(n: nat, k: nat)
    ensures n == DropDigits(n, k) * Pow10(k) + KeepDigits(n, k)
    ensures DropDigits(n, k) == n / Pow10(k) && KeepDigits(n, k) == n % Pow10(k)
  {
    DropKeepSum(n, k);
    DivModUnique(n, Pow10(k), DropDigits(n, k), KeepDigits(n, k));
  }

  lemma {:induction false} DropKeepSum(n: nat, k: nat)
    ensures n == DropDigits(n, k) * Pow10(k) + KeepDigits(n, k)
  {
    if k > 0 {
      var m := n / 10;
      DropKeepSum(m, k - 1);
      Regroup(n, m, n % 10, DropDigits(m, k - 1), Pow10(k - 1), KeepDigits(m, k - 1), Pow10(k), KeepDigits(n, k));
    }
  }

  lemma Regroup(n: int, m: int, d: int, q: int, p: int, r: int, bigP: int, bigR: int)
    requires n == m * 10 + d && m == q * p + r && bigP == 10 * p && bigR == d + 10 * r
    ensures n == q * bigP + bigR
  {
    ShiftDigit(q, p, r, d);
  }

  predicate IsDigit(c: char) { '0' <= c <= '9' }

  predicate AllDigits(s: string) { forall i :: 0 <= i < |s| ==> IsDigit(s[i]) }

  function DigitValue(c: char): (d: nat)
    requires IsDigit(c)
    ensures d < 10
  {
    (c as int) - ('0' as int)
  }

  function DigitChar(d: nat): (c: char)
    requires d < 10
    ensures IsDigit(c) && DigitValue(c) == d
  {
    (('0' as int) + d) as char
  }

  /** BigInt(s) for a string of digits (leading zeros allowed, "" reads as 0). */
  function ToNat(s: string): (n: nat)
    requires AllDigits(s)
    ensures n < Pow10(|s|)
  {
    if s == [] then 0 else ToNat(s[..|s| - 1]) * 10 + DigitValue(s[|s| - 1])
  }

  /** n.toString() for n >= 0: the digits of n, without leading zeros. */
  function FromNat(n: nat): (s: string)
    ensures AllDigits(s) && |s| >= 1
    ensures ToNat(s) == n
    ensures |s| == 1 || s[0] != '0'
  {
    if n < 10 then [DigitChar(n)]
    else
      var init := FromNat(n / 10);
      var s := init + [DigitChar(n % 10)];
      assert s[..|s| - 1] == init;
      s
  }

  /** '0'.repeat(k). */
  function Zeros(k: nat): (s: string)
    ensures |s| == k && AllDigits(s)
    ensures forall i :: 0 <= i < k ==> s[i] == '0'
  {
    if k == 0 then "" else Zeros(k - 1) + "0"
  }

  /** Left-pads s with zeros to length k; longer strings are kept as they are. */
  function PadLeft(s: string, k: nat): (r: string)
    ensures |r| == if |s| < k then k else |s|
  {
    if |s| < k then Zeros(k - |s|) + s else s
  }

  /** Digit strings read left to right: appending b shifts a by |b| places. */
  lemma {:induction false} ToNatAppend(a: string, b: string)
    requires AllDigits(a) && AllDigits(b)
    ensures AllDigits(a + b)
    ensures ToNat(a + b) == ToNat(a) * Pow10(|b|) + ToNat(b)
  {
    var ab := a + b;
    if b != [] {
      var b' := b[..|b| - 1];
      assert ab[..|ab| - 1] == a + b';
      assert ab[|ab| - 1] == b[|b| - 1];
      ToNatAppend(a, b');
      var x, y, p, d := ToNat(a), ToNat(b'), Pow10(|b'|), DigitValue(b[|b| - 1]);
      assert ToNat(ab) == ToNat(a + b') * 10 + d;
      assert ToNat(b) == y * 10 + d;
      assert Pow10(|b|) == 10 * p;
      ShiftDigit(x, p, y, d);
    } else {
      assert ab == a;
    }
  }

  lemma ShiftDigit(x: int, p: int, y: int, d: int)
    ensures (x * p + y) * 10 + d == x * (10 * p) + (y * 10 + d)
  {
  }

  lemma {:induction false} ToNatZeros(k: nat)
    ensures ToNat(Zeros(k)) == 0
  {
    if k > 0 {
      ToNatZeros(k - 1);
      assert Zeros(k)[..k - 1] == Zeros(k - 1);
    }
  }

  /** Left zero-padding does not change the value, and the padded string is all digits. */
  lemma PadLeftValue(s: string, k: nat)
    requires AllDigits(s)
    ensures AllDigits(PadLeft(s, k)) && ToNat(PadLeft(s, k)) == ToNat(s)
  {
    if |s| < k {
      var z := Zeros(k - |s|);
      ToNatZeros(k - |s|);
      ToNatAppend(z, s);
      ZeroProduct(ToNat(z), Pow10(|s|));
      assert PadLeft(s, k) == z + s;
    }
  }

  lemma ZeroProduct(a: int, b: int)
    requires a == 0
    ensures a * b == 0
  {
  }

  /** Appending zeros multiplies by a power of ten. */
  lemma AppendZerosValue(s: string, k: nat)
    requires AllDigits(s)
    ensures AllDigits(s + Zeros(k)) && ToNat(s + Zeros(k)) == ToNat(s) * Pow10(k)
  {
    ToNatZeros(k);
    ToNatAppend(s, Zeros(k));
  }

  /** Splitting a digit string at k: the prefix is the quotient and the suffix the remainder. */
  lemma ToNatSplit(s: string, k: nat)
    requires AllDigits(s) && k <= |s|
    ensures AllDigits(s[..k]) && AllDigits(s[k..])
    ensures ToNat(s[..k]) == DropDigits(ToNat(s), |s| - k)
    ensures ToNat(s[k..]) == KeepDigits(ToNat(s), |s| - k)
  {
    assert s == s[..k] + s[k..];
    ToNatAppend(s[..k], s[k..]);
    var d := Pow10(|s| - k);
    DivModUnique(ToNat(s), d, ToNat(s[..k]), ToNat(s[k..]));
    DropKeep(ToNat(s), |s| - k);
  }

  /** Digit k of s is the k-th decimal digit of its value, counted from the left. */
  lemma DigitAt(s: string, k: nat)
    requires AllDigits(s) && k < |s|
    ensures DigitValue(s[k]) == DropDigits(ToNat(s), |s| - 1 - k) % 10
  {
    ToNatSplit(s, k + 1);
    var p := s[..k + 1];
    assert p[..|p| - 1] == s[..k];
    assert p[|p| - 1] == s[k];
    DivModUnique(ToNat(p), 10, ToNat(s[..k]), DigitValue(s[k]));
  }

  /** Euclidean division is determined by its defining equation. */
  lemma DivModUnique(n: int, d: int, q: int, r: int)
    requires d > 0 && 0 <= r < d && n == q * d + r
    ensures n / d == q && n % d == r
  {
    var q0, r0 := n / d, n % d;
    assert n == q0 * d + r0 && 0 <= r0 < d;
    assert (q - q0) * d == r0 - r;
    if q > q0 {
      MulAtLeast(q - q0, d);
    } else if q < q0 {
      MulAtLeast(q0 - q, d);
    }
  }

  lemma {:induction false} MulAtLeast(x: int, d: int)
    requires x >= 1 && d >= 0
    ensures x * d >= d
  {
    if x > 1 {
      MulAtLeast(x - 1, d);
      assert x * d == (x - 1) * d + d;
    }
  }

  /** A digit string that starts with a non-zero digit is at least 10^(|s|-1). */
  lemma {:induction false} ToNatLowerBound(s: string)
    requires AllDigits(s) && |s| >= 1 && s[0] != '0'
    ensures ToNat(s) >= Pow10(|s| - 1)
  {
    if |s| > 1 {
      var s' := s[..|s| - 1];
      assert s'[0] == s[0];
      ToNatLowerBound(s');
    }
  }

  /** Two digit strings of the same length with the same value are equal. */
  lemma {:induction false} ToNatInjective(a: string, b: string)
    requires AllDigits(a) && AllDigits(b) && |a| == |b|
    requires ToNat(a) == ToNat(b)
    ensures a == b
  {
    if a != [] {
      var n := |a|;
      DivModUnique(ToNat(a), 10, ToNat(a[..n - 1]), DigitValue(a[n - 1]));
      DivModUnique(ToNat(b), 10, ToNat(b[..n - 1]), DigitValue(b[n - 1]));
      ToNatInjective(a[..n - 1], b[..n - 1]);
      assert a == a[..n - 1] + [a[n - 1]];
      assert b == b[..n - 1] + [b[n - 1]];
    }
  }

  /** A digit string without superfluous leading zeros is what toString() prints for its value. */
  lemma {:induction false} Canonical(s: string)
    requires AllDigits(s) && |s| >= 1 && (|s| == 1 || s[0] != '0')
    ensures FromNat(ToNat(s)) == s
  {
    var n := ToNat(s);
    var last := s[|s| - 1];
    if |s| == 1 {
      assert s == [last];
      assert n == DigitValue(last);
      assert DigitChar(DigitValue(last)) == last;
    } else {
      var init := s[..|s| - 1];
      assert init[0] == s[0];
      ToNatLowerBound(s);
      Pow10Le(1, |s| - 1);
      DivModUnique(n, 10, ToNat(init), DigitValue(last));
      Canonical(init);
      LastDigit(s, init, last, n);
    }
  }

  /** toString() of n >= 10 is the text of n / 10 followed by the digit n % 10. */
  lemma LastDigit(s: string, init: string, last: char, n: nat)
    requires |s| >= 1 && init == s[..|s| - 1] && last == s[|s| - 1] && IsDigit(last) && AllDigits(init)
    requires n >= 10 && n / 10 == ToNat(init) && n % 10 == DigitValue(last) && FromNat(n / 10) == init
    ensures FromNat(n) == s
  {
    DigitCharOfValue(last);
    assert FromNat(n) == init + [DigitChar(n % 10)];
    assert s == init + [last];
  }

  lemma DigitCharOfValue(c: char)
    requires IsDigit(c)
    ensures DigitChar(DigitValue(c)) == c
  {
  }

  /** toString() has exactly as many digits as needed: n < 10^k iff it fits in k digits (k >= 1). */
  lemma FromNatLength(n: nat, k: nat)
    ensures |FromNat(n)| <= k ==> n < Pow10(k)
    ensures n < Pow10(k) && k >= 1 ==> |FromNat(n)| <= k
  {
    var s := FromNat(n);
    if |s| <= k {
      Pow10Le(|s|, k);
    } else if |s| > 1 {
      ToNatLowerBound(s);
      Pow10Le(k, |s| - 1);
    }
  }

  /** Dropping the last k digits of toString() gives toString() of the quotient by 10^k. */
  lemma {:induction false} FromNatPrefix(n: nat, k: nat)
    requires k < |FromNat(n)|
    ensures FromNat(n)[..|FromNat(n)| - k] == FromNat(DropDigits(n, k))
  {
    var s := FromNat(n);
    CanonicalPrefix(s, n, k, DropDigits(n, k));
  }

  lemma {:induction false} CanonicalPrefix(s: string, n: nat, k: nat, q: nat)
    requires AllDigits(s) && |s| >= 1 && (|s| == 1 || s[0] != '0') && ToNat(s) == n
    requires k < |s| && q == DropDigits(n, k)
    ensures s[..|s| - k] == FromNat(q)
  {
    var p := s[..|s| - k];
    ToNatSplit(s, |s| - k);
    assert |p| == 1 || p[0] != '0' by {
      if |p| > 1 { assert p[0] == s[0]; }
    }
    Canonical(p);
  }
}
