/**
  Decimal digit strings and the version-number increment used by every
  Save Plus variant: `str(int(number) + 1).zfill(len(number))`.
  Only the ASCII digits '0'..'9' are modelled.
*/
module Digits {

  predicate IsDigit(c: char) {
    '0' <= c <= '9'
  }

  predicate AllDigits(s: string) {
    forall i :: 0 <= i < |s| ==> IsDigit(s[i])
  }

  predicate NoDigits(s: string) {
    forall i :: 0 <= i < |s| ==> !IsDigit(s[i])
  }

  function Pow10(n: nat): (r: nat)
    ensures r >= 1
  {
    if n == 0 then 1 else 10 * Pow10(n - 1)
  }

  function DigitValue(c: char): (d: nat)
    requires IsDigit(c)
    ensures d < 10
  {
    c as int - '0' as int
  }

  function DigitChar(d: nat): (c: char)
    requires d < 10
    ensures IsDigit(c) && DigitValue(c) == d
  {
    ('0' as int + d) as char
  }

  /** `int(s)` for a non-empty or empty string of ASCII digits; leading zeros are allowed. */
  function ValueOf(s: string): nat
    requires AllDigits(s)
  {
    if s == [] then 0 else 10 * ValueOf(s[..|s| - 1]) + DigitValue(s[|s| - 1])
  }

  /** `str(n)`: the shortest decimal spelling of `n`. */
  function Decimal(n: nat): (r: string)
    ensures |r| >= 1 && AllDigits(r)
    ensures ValueOf(r) == n
    ensures |r| > 1 ==> r[0] != '0'
  {
    if n < 10 then [DigitChar(n)]
    else
      var r := Decimal(n / 10) + [DigitChar(n % 10)];
      assert r[..|r| - 1] == Decimal(n / 10);
      r
  }

  function Zeros(n: nat): (r: string)
    ensures |r| == n && AllDigits(r)
    ensures forall i :: 0 <= i < n ==> r[i] == '0'
  {
    if n == 0 then [] else Zeros(n - 1) + ['0']
  }

  /** `s.zfill(width)`: pad with '0' on the left up to `width`; never truncates. */
  function ZFill(s: string, width: int): (r: string)
  {
    if |s| >= width then s else Zeros(width - |s|) + s
  }

  /** The number rule of Save Plus: `str(int(d) + 1).zfill(len(d))`. */
  function Increment(d: string): (r: string)
    requires AllDigits(d)
  {
    ZFill(Decimal(ValueOf(d) + 1), |d|)
  }

  // ---------------------------------------------------------------------
  // Properties

  lemma {:induction false} ValueOfAppend(s: string, t: string)
    requires AllDigits(s) && AllDigits(t)
    ensures AllDigits(s + t)
    ensures ValueOf(s + t) == ValueOf(s) * Pow10(|t|) + ValueOf(t)
    decreases |t|
  {
    if t != [] {
      var t' := t[..|t| - 1];
      var last := DigitValue(t[|t| - 1]);
      assert (s + t)[..|s + t| - 1] == s + t';
      assert (s + t)[|s + t| - 1] == t[|t| - 1];
      ValueOfAppend(s, t');
      var a, p, b := ValueOf(s), Pow10(|t'|), ValueOf(t');
      assert ValueOf(s + t) == 10 * ValueOf(s + t') + last;
      assert ValueOf(t) == 10 * b + last;
      assert Pow10(|t|) == 10 * p;
      ShiftDigit(a, p, b, last);
    } else {
      assert s + t == s;
    }
  }

  /** Appending a digit multiplies by ten: 10(ap + b) + l = a(10p) + (10b + l). */
  lemma ShiftDigit(a: nat, p: nat, b: nat, l: nat)
    ensures 10 * (a * p + b) + l == a * (10 * p) + (10 * b + l)
  {
    assert 10 * (a * p) == a * (10 * p);
  }

  /** Leading zeros do not change the value of a digit string. */
  lemma {:induction false} ValueOfZerosPrefix(n: nat, s: string)
    requires AllDigits(s)
    ensures AllDigits(Zeros(n) + s)
    ensures ValueOf(Zeros(n) + s) == ValueOf(s)
  {
    ValueOfAppend(Zeros(n), s);
    ValueOfZeros(n);
  }

  lemma {:induction false} ValueOfZeros(n: nat)
    ensures ValueOf(Zeros(n)) == 0
  {
    if n > 0 {
      assert Zeros(n)[..n - 1] == Zeros(n - 1);
      ValueOfZeros(n - 1);
    }
  }

  /** A digit string of width w denotes a number below 10^w. */
  lemma {:induction false} ValueOfBound(s: string)
    requires AllDigits(s)
    ensures ValueOf(s) < Pow10(|s|)
    decreases |s|
  {
    if s != [] {
      ValueOfBound(s[..|s| - 1]);
    }
  }

  /** `str(n)` fits in w >= 1 characters exactly when n < 10^w. */
  lemma {:induction false} DecimalWidth(n: nat, w: nat)
    requires w >= 1
    ensures |Decimal(n)| <= w <==> n < Pow10(w)
    decreases w
  {
    ValueOfBound(Decimal(n));
    if |Decimal(n)| <= w {
      PowMonotone(|Decimal(n)|, w);
    } else if n >= 10 && w >= 2 {
      DecimalWidth(n / 10, w - 1);
    }
  }

  lemma {:induction false} PowMonotone(a: nat, b: nat)
    requires a <= b
    ensures Pow10(a) <= Pow10(b)
    decreases b
  {
    if a < b {
      PowMonotone(a, b - 1);
    }
  }

  /** zfill keeps the digits, the value, and the larger of the two widths. */
  lemma ZFillFacts(s: string, width: nat)
    requires AllDigits(s)
    ensures AllDigits(ZFill(s, width))
    ensures ValueOf(ZFill(s, width)) == ValueOf(s)
    ensures |ZFill(s, width)| == if |s| >= width then |s| else width
  {
    if |s| < width {
      ValueOfZerosPrefix(width - |s|, s);
    }
  }

  /**
    The incremented number is the old value plus one, is spelled with digits only,
    keeps the original width whenever the new value fits in it (001 -> 002) and
    otherwise grows to exactly the width of the new value (99 -> 100): it is never
    truncated.
  */
  lemma IncrementFacts(d: string)
    requires AllDigits(d) && |d| >= 1
    ensures AllDigits(Increment(d))
    ensures ValueOf(Increment(d)) == ValueOf(d) + 1
    ensures |Increment(d)| >= |d|
    ensures |Increment(d)| == |d| <==> ValueOf(d) + 1 < Pow10(|d|)
    ensures |Increment(d)| > |d| ==> Increment(d) == Decimal(ValueOf(d) + 1)
    ensures Increment(d) != d
  {
    ZFillFacts(Decimal(ValueOf(d) + 1), |d|);
    DecimalWidth(ValueOf(d) + 1, |d|);
  }

  /** When the number grows by a digit it is a '1' followed by zeros. */
  lemma IncrementOverflow(d: string)
    requires AllDigits(d) && |d| >= 1
    requires |Increment(d)| > |d|
    ensures |Increment(d)| == |d| + 1
    ensures Increment(d)[0] == '1'
  {
    IncrementFacts(d);
    ValueOfBound(d);
    var n := ValueOf(d) + 1;
    DecimalWidth(n, |d|);
    DecimalWidth(n, |d| + 1);
    assert n == Pow10(|d|);
    LeadingDigitOfPow10(|d|);
  }

  lemma {:induction false} LeadingDigitOfPow10(w: nat)
    ensures Decimal(Pow10(w)) == ['1'] + Zeros(w)
  {
    if w > 0 {
      LeadingDigitOfPow10(w - 1);
      assert Pow10(w) / 10 == Pow10(w - 1);
      assert Pow10(w) % 10 == 0;
      assert Zeros(w) == Zeros(w - 1) + ['0'];
    }
  }

  lemma NoDigitsAppend(a: string, b: string)
    ensures NoDigits(a + b) <==> NoDigits(a) && NoDigits(b)
  {
    assert forall k :: 0 <= k < |a| ==> (a + b)[k] == a[k];
    assert forall k :: 0 <= k < |b| ==> (a + b)[|a| + k] == b[k];
  }
}
