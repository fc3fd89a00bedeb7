/** What the number scan accepts, and what the parser makes of an accepted token. */
module NumberReader {
  import opened Results
  import opened Sequences
  import opened Decimals
  import opened Numbers

  predicate NonzeroDigit(c: char) {
    '1' <= c <= '9'
  }

  predicate HasNonzeroDigit(s: string) {
    exists i | 0 <= i < |s| :: NonzeroDigit(s[i])
  }

  /**
   The double a token stands for: rejected when it overflows, or when it comes out as zero
   although a nonzero digit stands anywhere in the token.
   */
  function AcceptNumber(floats: Floats, t: NumberToken): Result<F64>
    requires ValidToken(t)
  {
    var x := floats.round(t.minus, TokenValue(t));
    if !x.IsFinite() then CanonFail()
    else if x.Zero? && HasNonzeroDigit(TokenText(t)) then CanonFail()
    else Ok(x)
  }

  /** `str::parse::<f64>` on a token of the grammar. */
  function ParseDouble(floats: Floats, text: string): Result<F64> {
    match ScanNumber(text)
    case None => CanonFail()
    case Some((t, rest)) =>
      ScanNumberSound(text);
      if rest == [] then Ok(floats.round(t.minus, TokenValue(t))) else CanonFail()
  }

  function ReadNumber(floats: Floats, s: string): (r: Result<(F64, string)>)
    ensures r.Ok? ==> |r.value.1| < |s|
    ensures r.Err? ==> r == Err(Canonicalization)
  {
    match ScanNumber(s)
    case None => CanonFail()
    case Some((t, rest)) =>
      ScanNumberSound(s);
      var x :- AcceptNumber(floats, t);
      Ok((x, rest))
  }

  /** A token whose text may end where it does is read for what it stands for. */
  lemma {:induction false} ReadTokenComplete(floats: Floats, t: NumberToken, rest: string)
    requires ValidToken(t) && AcceptNumber(floats, t).Ok? && Stops(t, rest)
    ensures ReadNumber(floats, TokenText(t) + rest) == Ok((AcceptNumber(floats, t).value, rest))
  {
    ScanNumberComplete(t, rest);
  }

  // ---- The scan takes the longest token -------------------------------------------------

  /** A scanned token is the longest token the text starts with. */
  lemma {:induction false} ScanIsLongest(s: string, t: NumberToken, rest: string)
    requires ScanNumber(s).Some?
    requires ValidToken(t) && s == TokenText(t) + rest
    ensures |TokenText(t)| <= |TokenText(ScanNumber(s).value.0)|
  {
    var (u, tail) := ScanNumber(s).value;
    ScanNumberSound(s);
    if |TokenText(t)| > |TokenText(u)| {
      var extra := TokenText(t)[|TokenText(u)|..];
      assert TokenText(t) == s[..|TokenText(t)|] && TokenText(u) == s[..|TokenText(u)|];
      assert TokenText(t) == TokenText(u) + extra;
      assert tail[0] == s[|TokenText(u)|] == extra[0];
      ScanNumberComplete(u, extra);
      WholeTokenScans(t);
      assert false;
    }
  }

  lemma {:induction false} WholeTokenScans(t: NumberToken)
    requires ValidToken(t)
    ensures ScanNumber(TokenText(t)) == Some((t, ""))
  {
    ScanNumberComplete(t, "");
    assert TokenText(t) + "" == TokenText(t);
  }

  /** A point or exponent marker where the token before it could still take one. */
  predicate DanglingMarker(t: NumberToken, rest: string) {
    && rest != [] && t.exponent.None?
    && (rest[0] == 'e' || rest[0] == 'E' || (rest[0] == '.' && t.fraction.None?))
  }

  ghost predicate LongestToken(s: string, t: NumberToken, rest: string) {
    && ValidToken(t) && s == TokenText(t) + rest
    && forall u, tail :: ValidToken(u) && s == TokenText(u) + tail ==> |TokenText(u)| <= |TokenText(t)|
  }

  /** The token with one more digit at its end. */
  function Extend(t: NumberToken, d: char): NumberToken {
    if t.exponent.Some? then
      t.(exponent := Some(t.exponent.value.(digits := t.exponent.value.digits + [d])))
    else if t.fraction.Some? then t.(fraction := Some(t.fraction.value + [d]))
    else t.(whole := t.whole + [d])
  }

  lemma {:induction false} ExtendText(t: NumberToken, d: char)
    requires ValidToken(t) && IsDigit(d)
    requires t.exponent.Some? || t.fraction.Some? || t.whole != "0"
    ensures ValidToken(Extend(t, d))
    ensures TokenText(Extend(t, d)) == TokenText(t) + [d]
  {
    TokenTextSplit(t, [d]);
    if t.exponent.Some? {
      var e := t.exponent.value;
      ConcatAssoc(OptionalText(e.sign), e.digits, [d]);
      ConcatAssoc([e.marker], OptionalText(e.sign) + e.digits, [d]);
    } else if t.fraction.Some? {
      ConcatAssoc(".", t.fraction.value, [d]);
      assert ExponentText(t.exponent) + [d] == [d];
      assert FractionText(t.fraction) + [d] + "" == FractionText(t.fraction) + [d];
    } else {
      assert "" + ("" + [d]) == [d];
      assert t.whole + [d] + ("" + "") == t.whole + [d];
    }
  }

  /**
   The scan succeeds with the longest token the text starts with, unless that token is followed
   by a point or exponent marker that leads nowhere; then it fails although a token is there.
   */
  lemma {:induction false} ScanSucceedsIff(s: string, t: NumberToken, rest: string)
    requires LongestToken(s, t, rest)
    ensures ScanNumber(s) == if DanglingMarker(t, rest) then None else Some((t, rest))
  {
    if rest != [] && IsDigit(rest[0]) && (t.exponent.Some? || t.fraction.Some? || t.whole != "0") {
      LongerToken(s, t, rest);
      assert false;
    }
    if Stops(t, rest) {
      ScanNumberComplete(t, rest);
    } else if ScanNumber(s).Some? {
      ScanNumberSound(s);
      LongestIsScanned(s, t, rest);
      assert false;
    }
  }

  lemma {:induction false} LongerToken(s: string, t: NumberToken, rest: string)
    requires ValidToken(t) && s == TokenText(t) + rest
    requires rest != [] && IsDigit(rest[0]) && (t.exponent.Some? || t.fraction.Some? || t.whole != "0")
    ensures exists u, tail :: ValidToken(u) && s == TokenText(u) + tail && |TokenText(u)| > |TokenText(t)|
  {
    ExtendText(t, rest[0]);
    assert s == TokenText(Extend(t, rest[0])) + rest[1..];
  }

  lemma {:induction false} LongestIsScanned(s: string, t: NumberToken, rest: string)
    requires LongestToken(s, t, rest) && ScanNumber(s).Some?
    ensures ScanNumber(s) == Some((t, rest))
  {
    var (u, tail) := ScanNumber(s).value;
    ScanNumberSound(s);
    ScanIsLongest(s, t, rest);
    assert TokenText(u) == s[..|TokenText(t)|] == TokenText(t);
    WholeTokenScans(u);
    WholeTokenScans(t);
    assert tail == s[|TokenText(t)|..] == rest;
  }

  /** For instance, `1.x` and `1e,` are not read, although `1` alone is scanned. */
  lemma {:induction false} DanglingMarkerRejected(floats: Floats)
    ensures ReadNumber(floats, "1.x") == CanonFail()
    ensures ReadNumber(floats, "1e,") == CanonFail()
    ensures ScanNumber("1") == Some((NumberToken(false, "1", None, None), ""))
  {
    var point, marker := "1.x", "1e,";
    assert point[1..] == ".x" && ".x"[1..] == "x";
    assert DigitRun("x") == 0 && DigitRun(point) == 1;
    assert marker[1..] == "e," && "e,"[1..] == ",";
    assert DigitRun(",") == 0 && DigitRun(marker) == 1;
    WholeTokenScans(NumberToken(false, "1", None, None));
    assert TokenText(NumberToken(false, "1", None, None)) == "1";
  }

  /** Without a token at its start, a text is not scanned at all. */
  lemma {:induction false} ScanNeedsToken(s: string)
    ensures ScanNumber(s).Some? ==> exists t, rest :: LongestToken(s, t, rest)
  {
    if ScanNumber(s).Some? {
      var (t, rest) := ScanNumber(s).value;
      ScanNumberSound(s);
      forall u, tail | ValidToken(u) && s == TokenText(u) + tail
        ensures |TokenText(u)| <= |TokenText(t)|
      {
        ScanIsLongest(s, u, tail);
      }
      assert LongestToken(s, t, rest);
    }
  }

  // ---- Reading back what was printed ----------------------------------------------------

  lemma {:induction false} PrintedTokenAccepted(floats: Floats, x: F64)
    requires x.IsFinite() && floats.IsDouble(x)
    ensures ValidToken(TokenOf(x))
    ensures AcceptNumber(floats, TokenOf(x)) == Ok(PositiveZero(x))
  {
    NumberTextDenotes(x);
  }

  /** A printed double is read back, whole and equal, whatever follows it that cannot extend it. */
  lemma {:induction false} NumberRoundTrip(floats: Floats, x: F64, rest: string)
    requires x.IsFinite() && floats.IsDouble(x)
    requires Stops(TokenOf(x), rest)
    ensures ReadNumber(floats, NumberText(x) + rest) == Ok((PositiveZero(x), rest))
  {
    NumberTextDenotes(x);
    PrintedTokenAccepted(floats, x);
    ReadTokenComplete(floats, TokenOf(x), rest);
  }

  // ---- Zero tokens ----------------------------------------------------------------------

  lemma {:induction false} NonzeroDigitInConcat(a: string, b: string)
    ensures HasNonzeroDigit(a + b) <==> HasNonzeroDigit(a) || HasNonzeroDigit(b)
  {
    var s := a + b;
    assert forall i | 0 <= i < |a| :: s[i] == a[i];
    assert forall i | 0 <= i < |b| :: s[|a| + i] == b[i];
  }

  lemma {:induction false} NonzeroDigitInNumber(s: string)
    requires AllDigits(s)
    ensures HasNonzeroDigit(s) <==> NatOf(s) != 0
  {
    NatOfIsZero(s);
  }

  /**
   A token of value zero is accepted exactly when its exponent, too, is zero: the underflow
   check looks at every digit of the token, not at the significand alone.
   */
  lemma {:induction false} ZeroTokenAcceptedIff(floats: Floats, t: NumberToken)
    requires ValidToken(t) && NatOf(t.whole + FractionDigits(t.fraction)) == 0
    ensures AcceptNumber(floats, t).Ok? <==> ExponentValue(t.exponent) == 0
  {
    ZeroTokenValue(t);
    ZeroTokenDigits(t);
  }

  lemma {:induction false} ZeroTokenValue(t: NumberToken)
    requires ValidToken(t) && NatOf(t.whole + FractionDigits(t.fraction)) == 0
    ensures TokenValue(t) == 0.0
  {
    ScaledZero(ExponentValue(t.exponent) - |FractionDigits(t.fraction)|);
  }

  lemma {:induction false} ZeroTokenDigits(t: NumberToken)
    requires ValidToken(t) && NatOf(t.whole + FractionDigits(t.fraction)) == 0
    ensures HasNonzeroDigit(TokenText(t)) <==> ExponentValue(t.exponent) != 0
  {
    TokenDigits(t);
  }

  /** The digits of a token are those of its significand and those of its exponent. */
  lemma {:induction false} TokenDigits(t: NumberToken)
    requires ValidToken(t)
    ensures HasNonzeroDigit(TokenText(t))
       <==> NatOf(t.whole + FractionDigits(t.fraction)) != 0 || ExponentValue(t.exponent) != 0
  {
    var f, e := FractionText(t.fraction), ExponentText(t.exponent);
    NonzeroDigitInConcat(SignText(t.minus), t.whole + (f + e));
    NonzeroDigitInConcat(t.whole, f + e);
    NonzeroDigitInConcat(f, e);
    SignificandDigits(t);
    ExponentDigits(t.exponent);
  }

  lemma {:induction false} SignificandDigits(t: NumberToken)
    requires ValidToken(t)
    ensures HasNonzeroDigit(t.whole) || HasNonzeroDigit(FractionText(t.fraction))
       <==> NatOf(t.whole + FractionDigits(t.fraction)) != 0
  {
    NonzeroDigitInNumber(t.whole + FractionDigits(t.fraction));
    NonzeroDigitInConcat(t.whole, FractionDigits(t.fraction));
    if t.fraction.Some? {
      NonzeroDigitInConcat(".", t.fraction.value);
    }
  }

  lemma {:induction false} ExponentDigits(e: Option<Exponent>)
    requires ValidExponent(e)
    ensures HasNonzeroDigit(ExponentText(e)) <==> ExponentValue(e) != 0
  {
    if e.Some? {
      var x := e.value;
      NonzeroDigitInConcat([x.marker], OptionalText(x.sign) + x.digits);
      NonzeroDigitInConcat(OptionalText(x.sign), x.digits);
      NonzeroDigitInNumber(x.digits);
    }
  }

  /** The comment on the check speaks of the significand only; `0e5` shows the difference. */
  lemma {:induction false} ZeroWithExponentRejected(floats: Floats)
    ensures ReadNumber(floats, "0e5") == CanonFail()
  {
    var t := NumberToken(false, "0", None, Some(Exponent('e', None, "5")));
    assert TokenText(t) + "" == "0e5";
    ScanNumberComplete(t, "");
    assert "0" + "" == "0";
    assert "5"[..0] == [];
    ZeroTokenAcceptedIff(floats, t);
  }
}
