/**
 Numbers of the JCS domain: IEEE-754 doubles seen through their shortest decimal digits, number
 tokens of section 6 of RFC 8259, the ECMAScript layout the printer uses, and the scan the
 parser uses.
 */
module Numbers {
  import opened Results
  import opened Sequences
  import opened Decimals

  // ---- Doubles --------------------------------------------------------------------------

  /**
   A double. A finite nonzero one is given by its sign and its shortest round-trip digits
   `d.ddd` times ten to the `exp`, the parts of Rust's `{:e}` rendering.
   */
  datatype Float =
    | NaN
    | Infinite(neg: bool)
    | Zero(neg: bool)
    | Finite(neg: bool, digits: string, exp: int)
  {
    predicate IsFinite() {
      Zero? || Finite?
    }
  }

  type F64 = f: Float | f.Finite? ==> Significant(f.digits) witness Zero(false)

  /** The absolute value of a finite double. */
  function Magnitude(x: F64): real
    requires x.IsFinite()
  {
    if x.Zero? then 0.0 else Scaled(NatOf(x.digits), x.exp + 1 - |x.digits|)
  }

  /** `-0` becomes `0`; every other double is kept. */
  function PositiveZero(x: F64): F64 {
    if x.Zero? then Zero(false) else x
  }

  /**
   What decimal-to-double conversion does, sign apart: an abstract rounding of non-negative
   reals. All that is asked of it is that zero is read as zero, and that a finite double it
   returns is read back from its own shortest digits.
   */
  datatype FloatModel = FloatModel(round: (bool, real) -> F64) {
    ghost predicate Valid() {
      && (forall neg :: round(neg, 0.0) == Zero(neg))
      && (forall neg, x: real :: IsDouble(round(neg, x)))
    }

    /** A double is a value that its own shortest digits denote. */
    ghost predicate IsDouble(x: F64) {
      x.Finite? ==> round(x.neg, Magnitude(x)) == x
    }
  }

  type Floats = m: FloatModel | m.Valid() witness FloatModel((neg, x) => Zero(neg))

  // ---- Number tokens --------------------------------------------------------------------

  datatype Exponent = Exponent(marker: char, sign: Option<char>, digits: string)

  datatype NumberToken =
    NumberToken(minus: bool, whole: string, fraction: Option<string>, exponent: Option<Exponent>)

  predicate ValidWhole(s: string) {
    s != [] && AllDigits(s) && (s[0] == '0' ==> |s| == 1)
  }

  predicate ValidFraction(f: Option<string>) {
    f.Some? ==> f.value != [] && AllDigits(f.value)
  }

  predicate ValidExponent(e: Option<Exponent>) {
    e.Some? ==>
      && (e.value.marker == 'e' || e.value.marker == 'E')
      && (e.value.sign.Some? ==> e.value.sign.value == '+' || e.value.sign.value == '-')
      && e.value.digits != [] && AllDigits(e.value.digits)
  }

  /** The grammar of section 6 of RFC 8259. */
  predicate ValidToken(t: NumberToken) {
    ValidWhole(t.whole) && ValidFraction(t.fraction) && ValidExponent(t.exponent)
  }

  function SignText(minus: bool): string {
    if minus then "-" else ""
  }

  function FractionText(f: Option<string>): string {
    if f.None? then "" else "." + f.value
  }

  function OptionalText(c: Option<char>): string {
    if c.None? then "" else [c.value]
  }

  function ExponentText(e: Option<Exponent>): string {
    if e.None? then "" else [e.value.marker] + (OptionalText(e.value.sign) + e.value.digits)
  }

  function TokenText(t: NumberToken): string {
    SignText(t.minus) + (t.whole + (FractionText(t.fraction) + ExponentText(t.exponent)))
  }

  function FractionDigits(f: Option<string>): (s: string)
    ensures ValidFraction(f) ==> AllDigits(s)
  {
    if f.None? then "" else f.value
  }

  function ExponentValue(e: Option<Exponent>): int
    requires ValidExponent(e)
  {
    if e.None? then 0
    else if e.value.sign == Some('-') then -(NatOf(e.value.digits) as int)
    else NatOf(e.value.digits)
  }

  /** The absolute value a token denotes, exactly. */
  function TokenValue(t: NumberToken): real
    requires ValidToken(t)
  {
    var fraction := FractionDigits(t.fraction);
    Scaled(NatOf(t.whole + fraction), ExponentValue(t.exponent) - |fraction|)
  }

  // ---- The printer's layout -------------------------------------------------------------

  /** Digits with the decimal point at position `n`, in the four cases of Number::toString. */
  function Layout(digits: string, n: int): string
    requires digits != []
  {
    var k := |digits|;
    if k <= n <= 21 then digits + Zeros(n - k)
    else if 0 < n <= 21 then digits[..n] + "." + digits[n..]
    else if -6 < n <= 0 then "0." + Zeros(-n) + digits
    else ExponentialLayout(digits, n - 1)
  }

  /** One digit before the point, and an exponent with its sign. */
  function ExponentialLayout(digits: string, e: int): string
    requires digits != []
  {
    (if |digits| == 1 then digits else digits[..1] + ("." + digits[1..]))
    + ("e" + ((if e >= 0 then "+" else "-") + NatText(if e >= 0 then e else -e)))
  }

  function NumberText(x: F64): string
    requires x.IsFinite()
  {
    if x.Zero? then "0" else SignText(x.neg) + Layout(x.digits, x.exp + 1)
  }

  /** The same layout as a token of the grammar. */
  function TokenOf(x: F64): (t: NumberToken)
    requires x.IsFinite()
  {
    if x.Zero? then NumberToken(false, "0", None, None)
    else
      var digits, k, n := x.digits, |x.digits|, x.exp + 1;
      if k <= n <= 21 then NumberToken(x.neg, digits + Zeros(n - k), None, None)
      else if 0 < n <= 21 then NumberToken(x.neg, digits[..n], Some(digits[n..]), None)
      else if -6 < n <= 0 then NumberToken(x.neg, "0", Some(Zeros(-n) + digits), None)
      else NumberToken(x.neg, digits[..1], if k == 1 then None else Some(digits[1..]),
                       Some(Exponent('e', Some(if n > 0 then '+' else '-'),
                                     NatText(if n > 0 then n - 1 else 1 - n))))
  }

  lemma {:induction false} TokenOfValid(x: F64)
    requires x.IsFinite()
    ensures ValidToken(TokenOf(x))
  {
  }

  lemma {:induction false} TokenOfText(x: F64)
    requires x.IsFinite()
    ensures TokenText(TokenOf(x)) == NumberText(x)
  {
    if x.Finite? {
      var t, digits, k, n := TokenOf(x), x.digits, |x.digits|, x.exp + 1;
      var body := t.whole + (FractionText(t.fraction) + ExponentText(t.exponent));
      if k <= n <= 21 {
        assert body == Layout(digits, n);
      } else if 0 < n <= 21 {
        assert body == Layout(digits, n);
      } else if -6 < n <= 0 {
        assert body == "0" + ("." + (Zeros(-n) + digits)) == Layout(digits, n);
      } else {
        ExponentialText(x);
      }
    }
  }

  lemma {:induction false} ExponentialText(x: F64)
    requires x.Finite? && (x.exp + 1 > 21 || x.exp + 1 <= -6)
    ensures var t := TokenOf(x);
            t.whole + (FractionText(t.fraction) + ExponentText(t.exponent)) == Layout(x.digits, x.exp + 1)
  {
    var t, digits := TokenOf(x), x.digits;
    if |digits| == 1 {
      assert digits[..1] == digits;
      assert "" + ExponentText(t.exponent) == ExponentText(t.exponent);
    } else {
      ConcatAssoc(digits[..1], "." + digits[1..], ExponentText(t.exponent));
    }
  }

  lemma {:induction false} TokenOfValue(x: F64)
    requires x.IsFinite()
    ensures ValidToken(TokenOf(x))
    ensures TokenValue(TokenOf(x)) == Magnitude(x)
  {
    TokenOfValid(x);
    if x.Zero? {
      assert "0" + "" == "0";
      ScaledZero(0);
    } else if |x.digits| <= x.exp + 1 <= 21 {
      WholeValue(x);
    } else if -6 < x.exp + 1 <= 21 {
      PointedValue(x);
    } else {
      ExponentialValue(x);
    }
  }

  lemma {:induction false} WholeValue(x: F64)
    requires x.Finite? && |x.digits| <= x.exp + 1 <= 21
    ensures ValidToken(TokenOf(x))
    ensures TokenValue(TokenOf(x)) == Magnitude(x)
  {
    TokenOfValid(x);
    var whole := x.digits + Zeros(x.exp + 1 - |x.digits|);
    assert TokenOf(x) == NumberToken(x.neg, whole, None, None);
    assert whole + "" == whole;
    ScaledZeros(x.digits, x.exp + 1 - |x.digits|, 0);
  }

  lemma {:induction false} PointedValue(x: F64)
    requires x.Finite? && -6 < x.exp + 1 <= 21 && x.exp + 1 < |x.digits|
    ensures ValidToken(TokenOf(x))
    ensures TokenValue(TokenOf(x)) == Magnitude(x)
  {
    TokenOfValid(x);
    var t, digits, n := TokenOf(x), x.digits, x.exp + 1;
    if 0 < n {
      assert digits[..n] + digits[n..] == digits;
    } else {
      NatOfLeadingZeros("0" + Zeros(-n), digits);
      assert "0" + (Zeros(-n) + digits) == ("0" + Zeros(-n)) + digits;
    }
  }

  lemma {:induction false} ExponentialValue(x: F64)
    requires x.Finite? && (x.exp + 1 > 21 || x.exp + 1 <= -6)
    ensures ValidToken(TokenOf(x))
    ensures TokenValue(TokenOf(x)) == Magnitude(x)
  {
    TokenOfValid(x);
    var t, n := TokenOf(x), x.exp + 1;
    assert FractionDigits(t.fraction) == x.digits[1..];
    assert x.digits[..1] + x.digits[1..] == x.digits;
    assert ExponentValue(t.exponent) == n - 1;
  }

  /** The printer's text is a number token, and denotes exactly the double printed. */
  lemma {:induction false} NumberTextDenotes(x: F64)
    requires x.IsFinite()
    ensures ValidToken(TokenOf(x))
    ensures TokenText(TokenOf(x)) == NumberText(x)
    ensures TokenValue(TokenOf(x)) == Magnitude(x)
  {
    TokenOfText(x);
    TokenOfValue(x);
  }

  // ---- Scanning -------------------------------------------------------------------------

  /** How many digits `s` starts with. */
  function DigitRun(s: string): (n: nat)
    ensures n <= |s| && AllDigits(s[..n])
    ensures n < |s| ==> !IsDigit(s[n])
  {
    if s == [] || !IsDigit(s[0]) then 0
    else
      var n := 1 + DigitRun(s[1..]);
      assert forall i | 0 < i < n :: s[..n][i] == s[1..][..n - 1][i - 1];
      n
  }

  /** A single `0`, or digits that do not start with one; 0 when there is neither. */
  function WholeRun(s: string): (n: nat)
    ensures n <= |s|
  {
    if s != [] && s[0] == '0' then 1 else DigitRun(s)
  }

  /** An optional fraction and what follows it; fails on a point without a digit. */
  function ScanFraction(s: string): (r: Option<(Option<string>, string)>)
    ensures r.Some? ==> |r.value.1| <= |s|
  {
    if s == [] || s[0] != '.' then Some((None, s))
    else
      var n := DigitRun(s[1..]);
      if n == 0 then None else Some((Some(s[1..][..n]), s[1..][n..]))
  }

  /** An optional sign, then digits; fails when there is no digit. */
  function ScanSigned(s: string): (r: Option<(Option<char>, string, string)>)
    ensures r.Some? ==> |r.value.2| <= |s|
  {
    var signed := s != [] && (s[0] == '+' || s[0] == '-');
    var body := if signed then s[1..] else s;
    var n := DigitRun(body);
    if n == 0 then None
    else Some((if signed then Some(s[0]) else None, body[..n], body[n..]))
  }

  /** An optional exponent and what follows it; fails on a marker without a digit. */
  function ScanExponent(s: string): (r: Option<(Option<Exponent>, string)>)
    ensures r.Some? ==> |r.value.1| <= |s|
  {
    if s == [] || (s[0] != 'e' && s[0] != 'E') then Some((None, s))
    else
      match ScanSigned(s[1..])
      case None => None
      case Some((sign, digits, rest)) => Some((Some(Exponent(s[0], sign, digits)), rest))
  }

  /** The token `s` starts with and what follows it. */
  function ScanNumber(s: string): (r: Option<(NumberToken, string)>)
    ensures r.Some? ==> |r.value.1| < |s|
  {
    var minus := s != [] && s[0] == '-';
    var s1 := if minus then s[1..] else s;
    var n := WholeRun(s1);
    if n == 0 then None
    else
      match ScanFraction(s1[n..])
      case None => None
      case Some((fraction, s2)) =>
        match ScanExponent(s2)
        case None => None
        case Some((exponent, s3)) => Some((NumberToken(minus, s1[..n], fraction, exponent), s3))
  }

  /** `rest` does not start with something that would have to be part of the token before it. */
  predicate Stops(t: NumberToken, rest: string) {
    rest != [] ==>
      && (t.exponent.None? ==> rest[0] != 'e' && rest[0] != 'E')
      && (t.exponent.None? && t.fraction.None? ==> rest[0] != '.')
      && (t.exponent.Some? || t.fraction.Some? || t.whole != "0" ==> !IsDigit(rest[0]))
  }

  lemma {:induction false} DigitRunExact(digits: string, rest: string)
    requires AllDigits(digits)
    requires rest != [] ==> !IsDigit(rest[0])
    ensures DigitRun(digits + rest) == |digits|
  {
    if digits == [] {
      assert digits + rest == rest;
    } else {
      DigitRunExact(digits[1..], rest);
      assert (digits + rest)[1..] == digits[1..] + rest;
    }
  }

  lemma {:induction false} TokenTextSplit(t: NumberToken, rest: string)
    ensures TokenText(t) + rest
         == SignText(t.minus) + (t.whole + (FractionText(t.fraction) + (ExponentText(t.exponent) + rest)))
  {
    var f, e := FractionText(t.fraction), ExponentText(t.exponent);
    ConcatAssoc(f, e, rest);
    ConcatAssoc(t.whole, f + e, rest);
    ConcatAssoc(SignText(t.minus), t.whole + (f + e), rest);
  }

  /** Scanning finds a token exactly when one is there and ends where the text lets it end. */
  lemma {:induction false} ScanNumberComplete(t: NumberToken, rest: string)
    requires ValidToken(t) && Stops(t, rest)
    ensures ScanNumber(TokenText(t) + rest) == Some((t, rest))
  {
    var s3 := rest;
    var s2 := ExponentText(t.exponent) + s3;
    var s2' := FractionText(t.fraction) + s2;
    var s1 := t.whole + s2';
    var s := SignText(t.minus) + s1;
    TokenTextSplit(t, rest);
    ScanExponentComplete(t.exponent, rest);
    ScanFractionComplete(t.fraction, s2);
    WholeRunExact(t.whole, s2');
    SignRead(t.minus, s1);
    assert s1[..|t.whole|] == t.whole && s1[|t.whole|..] == s2';
  }

  lemma {:induction false} SignRead(minus: bool, s1: string)
    requires s1 != [] && s1[0] != '-'
    ensures var s := SignText(minus) + s1;
            s != [] && (s[0] == '-' <==> minus) && (if minus then s[1..] else s) == s1
  {
  }

  lemma {:induction false} WholeRunExact(whole: string, rest: string)
    requires ValidWhole(whole)
    requires rest != [] && whole != "0" ==> !IsDigit(rest[0])
    ensures WholeRun(whole + rest) == |whole|
  {
    if whole[0] != '0' {
      DigitRunExact(whole, rest);
    }
  }

  lemma {:induction false} ScanFractionComplete(f: Option<string>, rest: string)
    requires ValidFraction(f)
    requires rest != [] && f.None? ==> rest[0] != '.'
    requires rest != [] && f.Some? ==> !IsDigit(rest[0])
    ensures ScanFraction(FractionText(f) + rest) == Some((f, rest))
  {
    if f.Some? {
      DigitRunExact(f.value, rest);
      assert (FractionText(f) + rest)[1..] == f.value + rest;
    } else {
      assert FractionText(f) + rest == rest;
    }
  }

  lemma {:induction false} ScanExponentComplete(e: Option<Exponent>, rest: string)
    requires ValidExponent(e)
    requires rest != [] && e.None? ==> rest[0] != 'e' && rest[0] != 'E'
    requires rest != [] && e.Some? ==> !IsDigit(rest[0])
    ensures ScanExponent(ExponentText(e) + rest) == Some((e, rest))
  {
    var s := ExponentText(e) + rest;
    if e.Some? {
      var signed := OptionalText(e.value.sign) + e.value.digits;
      ScanSignedComplete(e.value.sign, e.value.digits, rest);
      assert s == [e.value.marker] + (signed + rest) by {
        ConcatAssoc([e.value.marker], signed, rest);
      }
      assert s[1..] == signed + rest;
    } else {
      assert s == rest;
    }
  }

  lemma {:induction false} ScanSignedComplete(sign: Option<char>, digits: string, rest: string)
    requires sign.Some? ==> sign.value == '+' || sign.value == '-'
    requires digits != [] && AllDigits(digits)
    requires rest != [] ==> !IsDigit(rest[0])
    ensures ScanSigned(OptionalText(sign) + digits + rest) == Some((sign, digits, rest))
  {
    DigitRunExact(digits, rest);
    var s := OptionalText(sign) + digits + rest;
    if sign.Some? {
      assert s[1..] == digits + rest;
    } else {
      assert s == digits + rest && s[0] == digits[0];
    }
    assert (digits + rest)[..|digits|] == digits && (digits + rest)[|digits|..] == rest;
  }

  lemma {:induction false} ScanFractionSound(s: string)
    requires ScanFraction(s).Some?
    ensures var (f, rest) := ScanFraction(s).value;
            && ValidFraction(f) && s == FractionText(f) + rest
            && (rest != [] && f.None? ==> rest[0] != '.')
            && (rest != [] && f.Some? ==> !IsDigit(rest[0]))
  {
  }

  lemma {:induction false} ScanExponentSound(s: string)
    requires ScanExponent(s).Some?
    ensures var (e, rest) := ScanExponent(s).value;
            && ValidExponent(e) && s == ExponentText(e) + rest
            && (rest != [] && e.None? ==> rest[0] != 'e' && rest[0] != 'E')
            && (rest != [] && e.Some? ==> !IsDigit(rest[0]))
  {
  }

  lemma {:induction false} ScanNumberSound(s: string)
    requires ScanNumber(s).Some?
    ensures var (t, rest) := ScanNumber(s).value;
            ValidToken(t) && Stops(t, rest) && s == TokenText(t) + rest
  {
    ScanNumberStops(s);
    ScanNumberSplits(s);
    TokenTextSplit(ScanNumber(s).value.0, ScanNumber(s).value.1);
  }

  lemma {:induction false} ScanNumberSplits(s: string)
    requires ScanNumber(s).Some?
    ensures var (t, rest) := ScanNumber(s).value;
            s == SignText(t.minus) + (t.whole + (FractionText(t.fraction) + (ExponentText(t.exponent) + rest)))
  {
    var minus := s != [] && s[0] == '-';
    var s1 := if minus then s[1..] else s;
    var n := WholeRun(s1);
    ScanTailSplits(s1[n..]);
    SignSplits(s);
    Glue(SignText(minus), s1, n);
  }

  lemma {:induction false} Glue(sign: string, s: string, n: nat)
    requires n <= |s|
    ensures sign + s == sign + (s[..n] + s[n..])
  {
    assert s == s[..n] + s[n..];
  }

  lemma {:induction false} SignSplits(s: string)
    ensures var minus := s != [] && s[0] == '-'; s == SignText(minus) + if minus then s[1..] else s
  {
  }

  lemma {:induction false} ScanTailSplits(s: string)
    requires ScanFraction(s).Some? && ScanExponent(ScanFraction(s).value.1).Some?
    ensures var (f, s2) := ScanFraction(s).value;
            var (e, rest) := ScanExponent(s2).value;
            s == FractionText(f) + (ExponentText(e) + rest)
  {
    ScanFractionSound(s);
    ScanExponentSound(ScanFraction(s).value.1);
  }

  lemma {:induction false} ScanNumberStops(s: string)
    requires ScanNumber(s).Some?
    ensures var (t, rest) := ScanNumber(s).value; ValidToken(t) && Stops(t, rest)
  {
    var (t, rest) := ScanNumber(s).value;
    var s1 := if t.minus then s[1..] else s;
    var n := WholeRun(s1);
    ScanFractionSound(s1[n..]);
    ScanExponentSound(ScanFraction(s1[n..]).value.1);
    if t.fraction.None? && t.exponent.None? && rest != [] {
      assert rest == s1[n..];
    }
  }
}
