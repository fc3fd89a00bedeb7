/**
 Decimal digit strings and the exact numbers they denote. Everything here is arithmetic over
 `nat` and `real`; no rounding happens.
 */
module Decimals {

  predicate IsDigit(c: char) {
    '0' <= c <= '9'
  }

  predicate AllDigits(s: string) {
    forall i | 0 <= i < |s| :: IsDigit(s[i])
  }

  function DigitValue(c: char): (v: nat)
    requires IsDigit(c)
  {
    c as int - '0' as int
  }

  function DigitChar(v: nat): char
    requires v < 10
  {
    (v + '0' as int) as char
  }

  /** The natural number written by a digit string; the empty string is 0. */
  function NatOf(s: string): nat
    requires AllDigits(s)
  {
    if s == [] then 0 else 10 * NatOf(s[..|s| - 1]) + DigitValue(s[|s| - 1])
  }

  /** `n.to_string()`: decimal digits without leading zeros. */
  function NatText(n: nat): (s: string)
    ensures s != [] && AllDigits(s)
    ensures NatOf(s) == n
    ensures s[0] == '0' ==> s == "0"
  {
    if n < 10 then [DigitChar(n)]
    else
      var s := NatText(n / 10) + [DigitChar(n % 10)];
      assert s[..|s| - 1] == NatText(n / 10);
      s
  }

  /** `"0".repeat(n)` */
  function Zeros(n: nat): (s: string)
    ensures |s| == n && forall i | 0 <= i < n :: s[i] == '0'
  {
    seq(n, _ => '0')
  }

  /** `n` times ten to the `e`: what a significand and an exponent denote, exactly. */
  function Scaled(n: nat, e: int): real
    decreases if e < 0 then -e else e
  {
    if e == 0 then n as real
    else if e > 0 then 10.0 * Scaled(n, e - 1)
    else Scaled(n, e + 1) / 10.0
  }

  /** A factor of ten moves between significand and exponent. */
  lemma {:induction false} ScaledShift(n: nat, e: int)
    ensures Scaled(10 * n, e) == Scaled(n, e + 1)
    decreases if e < 0 then -e else e
  {
    if e > 0 {
      ScaledShift(n, e - 1);
    } else if e < 0 {
      ScaledShift(n, e + 1);
    }
  }

  /** For a fixed exponent, significands are ordered as the numbers they denote. */
  lemma {:induction false} ScaledOrder(n: nat, m: nat, e: int)
    ensures n < m <==> Scaled(n, e) < Scaled(m, e)
    ensures n == m <==> Scaled(n, e) == Scaled(m, e)
    decreases if e < 0 then -e else e
  {
    if e > 0 {
      ScaledOrder(n, m, e - 1);
    } else if e < 0 {
      ScaledOrder(n, m, e + 1);
    }
  }

  lemma {:induction false} ScaledZero(e: int)
    ensures Scaled(0, e) == 0.0
    decreases if e < 0 then -e else e
  {
    if e > 0 {
      ScaledZero(e - 1);
    } else if e < 0 {
      ScaledZero(e + 1);
    }
  }

  lemma {:induction false} PowersOfTenOrder(a: int, b: int)
    requires a <= b
    ensures Scaled(1, a) <= Scaled(1, b)
    decreases b - a
  {
    if a < b {
      PowersOfTenOrder(a, b - 1);
      ScaledShift(1, b - 1);
      ScaledOrder(1, 10, b - 1);
    }
  }

  lemma {:induction false} NatOfZeros(s: string)
    requires forall i | 0 <= i < |s| :: s[i] == '0'
    ensures AllDigits(s) && NatOf(s) == 0
  {
    if s != [] {
      NatOfZeros(s[..|s| - 1]);
    }
  }

  /** A digit string is worth zero exactly when every digit is `0`. */
  lemma {:induction false} NatOfIsZero(s: string)
    requires AllDigits(s)
    ensures NatOf(s) == 0 <==> forall i | 0 <= i < |s| :: s[i] == '0'
  {
    if s != [] {
      NatOfIsZero(s[..|s| - 1]);
      assert forall i | 0 <= i < |s| - 1 :: s[i] == s[..|s| - 1][i];
    }
  }

  lemma {:induction false} NatOfPositive(s: string)
    requires AllDigits(s) && s != [] && s[0] != '0'
    ensures NatOf(s) > 0
  {
    if |s| > 1 {
      NatOfPositive(s[..|s| - 1]);
    }
  }

  /** Digit strings that do not start with `0` are determined by their number. */
  lemma {:induction false} NatOfInjective(a: string, b: string)
    requires AllDigits(a) && AllDigits(b)
    requires a != [] && b != [] && a[0] != '0' && b[0] != '0'
    requires NatOf(a) == NatOf(b)
    ensures a == b
  {
    var a', b' := a[..|a| - 1], b[..|b| - 1];
    var x, y := DigitValue(a[|a| - 1]), DigitValue(b[|b| - 1]);
    assert 10 * NatOf(a') + x == 10 * NatOf(b') + y;
    assert NatOf(a') == NatOf(b') && x == y;
    if a' != [] {
      NatOfPositive(a');
    }
    if b' != [] {
      NatOfPositive(b');
    }
    if a' != [] {
      NatOfInjective(a', b');
    }
    assert a == a' + [a[|a| - 1]] && b == b' + [b[|b| - 1]];
  }

  /** Significant digits: at least one, neither the first nor the last being `0`. */
  predicate Significant(s: string) {
    s != [] && AllDigits(s) && s[0] != '0' && s[|s| - 1] != '0'
  }

  /** Leading zeros are worth nothing. */
  lemma {:induction false} NatOfLeadingZeros(zeros: string, s: string)
    requires forall i | 0 <= i < |zeros| :: zeros[i] == '0'
    requires AllDigits(s)
    ensures AllDigits(zeros + s) && NatOf(zeros + s) == NatOf(s)
  {
    if s == [] {
      NatOfZeros(zeros);
      assert zeros + s == zeros;
    } else {
      NatOfLeadingZeros(zeros, s[..|s| - 1]);
      assert (zeros + s)[..|zeros + s| - 1] == zeros + s[..|s| - 1];
    }
  }

  /** Writing `k` zeros after the digits is the same as raising the exponent by `k`. */
  lemma {:induction false} ScaledZeros(s: string, k: nat, e: int)
    requires AllDigits(s)
    ensures AllDigits(s + Zeros(k))
    ensures Scaled(NatOf(s + Zeros(k)), e) == Scaled(NatOf(s), e + k)
  {
    if k == 0 {
      assert s + Zeros(k) == s;
    } else {
      var t := s + Zeros(k);
      assert t[..|t| - 1] == s + Zeros(k - 1);
      ScaledZeros(s, k - 1, e + 1);
      ScaledShift(NatOf(s + Zeros(k - 1)), e);
    }
  }

  /** A digit string without leading zeros lies between two consecutive powers of ten. */
  lemma {:induction false} DigitBounds(s: string, e: int)
    requires AllDigits(s) && s != [] && s[0] != '0'
    ensures Scaled(1, |s| - 1 + e) <= Scaled(NatOf(s), e)
    ensures Scaled(NatOf(s) + 1, e) <= Scaled(1, |s| + e)
    decreases s
  {
    var front, d := s[..|s| - 1], DigitValue(s[|s| - 1]);
    ScaledShift(NatOf(front), e);
    ScaledShift(NatOf(front) + 1, e);
    ScaledOrder(10 * NatOf(front) + 10, NatOf(s) + 1, e);
    if front == [] {
      ScaledOrder(NatOf(s), 1, e);
    } else {
      DigitBounds(front, e + 1);
      ScaledOrder(NatOf(s), 10 * NatOf(front), e);
    }
  }

  /** A positive decimal has one significand and one exponent. */
  lemma {:induction false} DecimalUnique(a: string, e: int, b: string, f: int)
    requires Significant(a) && Significant(b)
    requires Scaled(NatOf(a), e) == Scaled(NatOf(b), f)
    ensures a == b && e == f
  {
    if e < f {
      EqualAfterShift(b, f, a, e);
      assert false;
    } else if e > f {
      EqualAfterShift(a, e, b, f);
      assert false;
    } else {
      ScaledOrder(NatOf(a), NatOf(b), e);
      NatOfInjective(a, b);
    }
  }

  lemma {:induction false} EqualAfterShift(a: string, e: int, b: string, f: int)
    requires AllDigits(a) && AllDigits(b) && a != [] && b != [] && a[0] != '0' && b[0] != '0'
    requires f < e && Scaled(NatOf(a), e) == Scaled(NatOf(b), f)
    ensures b == a + Zeros(e - f)
  {
    var s := a + Zeros(e - f);
    ScaledZeros(a, e - f, f);
    ScaledOrder(NatOf(s), NatOf(b), f);
    NatOfInjective(s, b);
  }
}
