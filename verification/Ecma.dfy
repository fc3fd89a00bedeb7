/**
 The number form of section 3.2.2.3 of RFC 8785, stated on value and shape instead of by an
 algorithm, and the proof that the printer's layout is the only text that has it.
 */
module Ecma {
  import opened Results
  import opened Decimals
  import opened Numbers

  predicate Positional(magnitude: real) {
    Scaled(1, -6) <= magnitude < Scaled(1, 21)
  }

  /**
   The form section 3.2.2.3 of RFC 8785 asks for, stated without an algorithm: positional
   notation exactly for magnitudes from 10^-6 up to (not including) 10^21, otherwise one nonzero
   digit before the point and a signed exponent; no superfluous digit anywhere.
   */
  predicate EcmaShape(t: NumberToken) {
    && ValidToken(t)
    && (t.fraction.Some? ==> t.fraction.value[|t.fraction.value| - 1] != '0')
    && (t.exponent.None? <==> Positional(TokenValue(t)))
    && (t.exponent.Some? ==>
          && |t.whole| == 1 && t.whole != "0"
          && t.exponent.value.marker == 'e'
          && t.exponent.value.sign.Some?
          && t.exponent.value.digits[0] != '0')
  }

  /** The decimal point position of a finite double locates its magnitude. */
  lemma {:induction false} MagnitudeBounds(x: F64)
    requires x.Finite?
    ensures Scaled(1, x.exp) <= Magnitude(x) < Scaled(1, x.exp + 1)
  {
    var k := |x.digits|;
    DigitBounds(x.digits, x.exp + 1 - k);
    ScaledOrder(NatOf(x.digits), NatOf(x.digits) + 1, x.exp + 1 - k);
  }

  /** The printer emits the ECMAScript form of every finite nonzero double. */
  lemma {:induction false} NumberTextIsEcma(x: F64)
    requires x.Finite?
    ensures EcmaShape(TokenOf(x))
  {
    NumberTextDenotes(x);
    MagnitudeBounds(x);
    PointLocates(x.exp, Magnitude(x));
    FractionEnds(x);
  }

  lemma {:induction false} FractionEnds(x: F64)
    requires x.Finite?
    ensures var f := TokenOf(x).fraction; f.Some? ==> f.value != [] && f.value[|f.value| - 1] != '0'
  {
  }

  /** Whether a magnitude is written positionally shows in its exponent. */
  lemma {:induction false} PointLocates(exp: int, magnitude: real)
    requires Scaled(1, exp) <= magnitude < Scaled(1, exp + 1)
    ensures Positional(magnitude) <==> -6 <= exp < 21
  {
    if -6 <= exp {
      PowersOfTenOrder(-6, exp);
    } else {
      PowersOfTenOrder(exp + 1, -6);
    }
    if exp < 21 {
      PowersOfTenOrder(exp + 1, 21);
    } else {
      PowersOfTenOrder(21, exp);
    }
  }

  // ---- Only one text has the form -------------------------------------------------------

  lemma {:induction false} LeadingZeros(s: string) returns (z: nat)
    requires AllDigits(s) && s != [] && s[|s| - 1] != '0'
    ensures z < |s| && s[..z] == Zeros(z) && s[z] != '0'
  {
    if s[0] != '0' {
      z := 0;
    } else {
      z := LeadingZeros(s[1..]);
      z := z + 1;
    }
  }

  lemma {:induction false} TrailingZeros(s: string) returns (k: nat)
    requires AllDigits(s) && s != [] && s[0] != '0'
    ensures 0 < k <= |s| && s == s[..k] + Zeros(|s| - k) && s[k - 1] != '0'
    decreases |s|
  {
    if s[|s| - 1] != '0' {
      k := |s|;
    } else {
      var front := s[..|s| - 1];
      k := TrailingZeros(front);
      assert s == front + "0" && s[..k] == front[..k];
    }
  }

  /** A positive token in exponential form is what the printer writes for some double. */
  lemma {:induction false} ExponentialIsPrinted(t: NumberToken) returns (x: F64)
    requires EcmaShape(t) && t.exponent.Some?
    ensures x.Finite? && TokenOf(x) == t
  {
    var digits, e := t.whole + FractionDigits(t.fraction), ExponentValue(t.exponent);
    x := Finite(t.minus, digits, e);
    assert digits[..1] == t.whole && digits[1..] == FractionDigits(t.fraction);
    assert TokenValue(t) == Magnitude(x);
    MagnitudeBounds(x);
    PointLocates(e, Magnitude(x));
    ExponentPrinted(t.exponent.value);
  }

  /** An exponent without superfluous zeros is written as the printer writes it. */
  lemma {:induction false} ExponentPrinted(e: Exponent)
    requires ValidExponent(Some(e)) && e.digits[0] != '0'
    ensures NatOf(e.digits) > 0 && e.digits == NatText(NatOf(e.digits))
  {
    NatOfPositive(e.digits);
    NatOfInjective(e.digits, NatText(NatOf(e.digits)));
  }

  /** A token without exponent whose digits and point position are those of `x`. */
  lemma {:induction false} PositionalExponent(t: NumberToken, x: F64)
    requires EcmaShape(t) && t.exponent.None? && x.Finite? && TokenValue(t) == Magnitude(x)
    ensures -6 <= x.exp < 21
  {
    MagnitudeBounds(x);
    PointLocates(x.exp, Magnitude(x));
  }

  lemma {:induction false} PointedIsPrinted(t: NumberToken) returns (x: F64)
    requires EcmaShape(t) && t.exponent.None? && t.fraction.Some? && t.whole != "0"
    ensures x.Finite? && TokenOf(x) == t
  {
    var f := t.fraction.value;
    x := Finite(t.minus, t.whole + f, |t.whole| - 1);
    assert x.digits[..|t.whole|] == t.whole && x.digits[|t.whole|..] == f;
    PositionalExponent(t, x);
  }

  lemma {:induction false} SmallIsPrinted(t: NumberToken) returns (x: F64)
    requires EcmaShape(t) && t.exponent.None? && t.fraction.Some? && t.whole == "0"
    ensures x.Finite? && TokenOf(x) == t
  {
    var f := t.fraction.value;
    var z := LeadingZeros(f);
    x := Finite(t.minus, f[z..], -(z as int) - 1);
    assert f == Zeros(z) + f[z..];
    assert "0" + f == ("0" + Zeros(z)) + f[z..];
    NatOfLeadingZeros("0" + Zeros(z), f[z..]);
    PositionalExponent(t, x);
  }

  lemma {:induction false} WholeIsPrinted(t: NumberToken) returns (x: F64)
    requires EcmaShape(t) && t.exponent.None? && t.fraction.None?
    ensures x.Finite? && TokenOf(x) == t
  {
    assert t.whole + "" == t.whole;
    WholeNotZero(t);
    var k := TrailingZeros(t.whole);
    x := Finite(t.minus, t.whole[..k], |t.whole| - 1);
    ScaledZeros(t.whole[..k], |t.whole| - k, 0);
    PositionalExponent(t, x);
  }

  lemma {:induction false} WholeNotZero(t: NumberToken)
    requires EcmaShape(t) && t.exponent.None? && t.fraction.None?
    ensures t.whole[0] != '0'
  {
    assert t.whole + "" == t.whole;
    ScaledZero(-6);
    ScaledOrder(0, 1, -6);
    assert NatOf("0") == 0;
    if t.whole[0] == '0' {
      assert false;
    }
  }

  lemma {:induction false} EcmaShapeIsPrinted(t: NumberToken) returns (x: F64)
    requires EcmaShape(t)
    ensures x.Finite? && TokenOf(x) == t
  {
    if t.exponent.Some? {
      x := ExponentialIsPrinted(t);
    } else if t.fraction.Some? {
      if t.whole == "0" {
        x := SmallIsPrinted(t);
      } else {
        x := PointedIsPrinted(t);
      }
    } else {
      x := WholeIsPrinted(t);
    }
  }

  /** Finite nonzero doubles are told apart by their sign and magnitude. */
  lemma {:induction false} MagnitudeUnique(x: F64, y: F64)
    requires x.Finite? && y.Finite? && x.neg == y.neg && Magnitude(x) == Magnitude(y)
    ensures x == y
  {
    DecimalUnique(x.digits, x.exp + 1 - |x.digits|, y.digits, y.exp + 1 - |y.digits|);
  }

  /**
   The printed text of a finite nonzero double is the one and only token of the ECMAScript form
   with its sign and its exact magnitude.
   */
  lemma {:induction false} EcmaFormUnique(x: F64, t: NumberToken)
    requires x.Finite?
    ensures ValidToken(t) && EcmaShape(t) && t.minus == x.neg && TokenValue(t) == Magnitude(x)
       <==> t == TokenOf(x)
  {
    if t == TokenOf(x) {
      NumberTextDenotes(x);
      NumberTextIsEcma(x);
    } else if ValidToken(t) && EcmaShape(t) && t.minus == x.neg && TokenValue(t) == Magnitude(x) {
      EcmaFormOnly(x, t);
    }
  }

  lemma {:induction false} EcmaFormOnly(x: F64, t: NumberToken)
    requires x.Finite? && EcmaShape(t) && t.minus == x.neg && TokenValue(t) == Magnitude(x)
    ensures t == TokenOf(x)
  {
    var y := EcmaShapeIsPrinted(t);
    TokenOfValue(y);
    assert Magnitude(y) == Magnitude(x);
    MagnitudeUnique(x, y);
  }
}
