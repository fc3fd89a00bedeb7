/** What number tokens denote, in plain arithmetic, and what is read of tokens that denote the same. */
module NumberMeanings {
  import opened Results
  import opened Sequences
  import opened Decimals
  import opened Numbers
  import opened NumberReader

  /** Multiplied by ten `k` times. */
  function TimesTens(x: real, k: nat): real {
    if k == 0 then x else 10.0 * TimesTens(x, k - 1)
  }

  /** Divided by ten `k` times. */
  function OverTens(x: real, k: nat): real {
    if k == 0 then x else OverTens(x, k - 1) / 10.0
  }

  lemma {:induction false} NatOfPlaces(s: string, c: char)
    requires AllDigits(s) && '0' <= c <= '9'
    ensures NatOf("") == 0 && NatOf(s + [c]) == 10 * NatOf(s) + (c as int - 0x30)
  {
    assert (s + [c])[..|s|] == s;
  }

  lemma {:induction false} ScaledNext(n: nat, e: int)
    ensures Scaled(n, e + 1) == 10.0 * Scaled(n, e)
  {
  }

  lemma {:induction false} ScaledUp(n: nat, e: int, k: nat)
    ensures Scaled(n, e + k) == TimesTens(Scaled(n, e), k)
  {
    if k > 0 {
      ScaledUp(n, e, k - 1);
      ScaledNext(n, e + k - 1);
    }
  }

  lemma {:induction false} ScaledDown(n: nat, e: int, k: nat)
    ensures Scaled(n, e - k) == OverTens(Scaled(n, e), k)
  {
    if k > 0 {
      ScaledDown(n, e, k - 1);
      ScaledNext(n, e - k);
    }
  }

  /**
   What a token denotes: its digits divided by ten as often as there are digits behind the point,
   and then multiplied by ten as often as the exponent's digits say or, behind a minus sign,
   divided. A plus sign and the case of the marker mean nothing.
   */
  lemma {:induction false} TokenDenotes(t: NumberToken)
    requires ValidToken(t)
    ensures var fraction := if t.fraction.None? then "" else t.fraction.value;
            var plain := OverTens(NatOf(t.whole + fraction) as real, |fraction|);
            TokenValue(t)
            == if t.exponent.None? then plain
            else if t.exponent.value.sign == Some('-') then OverTens(plain, NatOf(t.exponent.value.digits))
            else TimesTens(plain, NatOf(t.exponent.value.digits))
  {
    var fraction := if t.fraction.None? then "" else t.fraction.value;
    var n := NatOf(t.whole + fraction);
    ScaledDown(n, 0, |fraction|);
    if t.exponent.Some? {
      var e := NatOf(t.exponent.value.digits);
      if t.exponent.value.sign == Some('-') {
        ScaledDown(n, 0 - |fraction|, e);
      } else {
        ScaledUp(n, 0 - |fraction|, e);
      }
    }
  }

  // ---- Which tokens are accepted --------------------------------------------------------

  predicate OnlyZeros(digits: string) {
    forall i | 0 <= i < |digits| :: digits[i] == '0'
  }

  /** No digit of the token, exponent included, is other than zero. */
  predicate AllZero(t: NumberToken) {
    && OnlyZeros(t.whole)
    && (t.fraction.Some? ==> OnlyZeros(t.fraction.value))
    && (t.exponent.Some? ==> OnlyZeros(t.exponent.value.digits))
  }

  lemma {:induction false} OnlyZerosIff(s: string)
    requires AllDigits(s)
    ensures OnlyZeros(s) <==> NatOf(s) == 0
  {
    NatOfIsZero(s);
  }

  lemma {:induction false} OnlyZerosConcat(a: string, b: string)
    ensures OnlyZeros(a + b) <==> OnlyZeros(a) && OnlyZeros(b)
  {
    assert forall i | 0 <= i < |a| :: (a + b)[i] == a[i];
    assert forall i | 0 <= i < |b| :: (a + b)[|a| + i] == b[i];
  }

  lemma {:induction false} AllZeroIff(t: NumberToken)
    requires ValidToken(t)
    ensures AllZero(t) <==> !HasNonzeroDigit(TokenText(t))
  {
    TokenDigits(t);
    OnlyZerosIff(t.whole + FractionDigits(t.fraction));
    OnlyZerosConcat(t.whole, FractionDigits(t.fraction));
    if t.exponent.Some? {
      OnlyZerosIff(t.exponent.value.digits);
    }
  }

  /**
   A token is read as the double its value is rounded to, unless that is not finite, or is zero
   although some digit of the token, exponent included, is not.
   */
  lemma {:induction false} AcceptedIff(floats: Floats, t: NumberToken, x: F64)
    requires ValidToken(t)
    ensures AcceptNumber(floats, t) == Ok(x)
       <==> && x == floats.round(t.minus, TokenValue(t))
            && !x.NaN? && !x.Infinite?
            && (x.Zero? ==> AllZero(t))
    ensures AcceptNumber(floats, t).Err? ==> AcceptNumber(floats, t) == Err(Canonicalization)
  {
    AllZeroIff(t);
  }

  /** A nonzero number that rounds to zero is rejected. */
  lemma {:induction false} UnderflowRejected(floats: Floats, t: NumberToken)
    requires ValidToken(t) && TokenValue(t) != 0.0 && floats.round(t.minus, TokenValue(t)).Zero?
    ensures AcceptNumber(floats, t) == Err(Canonicalization)
  {
    NonzeroValue(t);
    AcceptedIff(floats, t, floats.round(t.minus, TokenValue(t)));
  }

  lemma {:induction false} NonzeroValue(t: NumberToken)
    requires ValidToken(t) && TokenValue(t) != 0.0
    ensures !AllZero(t)
  {
    var fraction := FractionDigits(t.fraction);
    OnlyZerosIff(t.whole + fraction);
    OnlyZerosConcat(t.whole, fraction);
    ScaledZero(ExponentValue(t.exponent) - |fraction|);
  }

  // ---- Tokens of the same value ---------------------------------------------------------

  lemma {:induction false} ReadTokenAs(floats: Floats, t: NumberToken, rest: string)
    requires ValidToken(t) && Stops(t, rest)
    ensures ReadNumber(floats, TokenText(t) + rest)
         == if AcceptNumber(floats, t).Ok? then Ok((AcceptNumber(floats, t).value, rest)) else CanonFail()
  {
    ScanNumberComplete(t, rest);
  }

  /**
   Tokens of one sign and value are read as one double, whatever their spelling; and if the value
   is not zero, one of them is accepted exactly when the other is.
   */
  lemma {:induction false} SameValueSameDouble(
    floats: Floats, t: NumberToken, r: string, u: NumberToken, s: string)
    requires ValidToken(t) && Stops(t, r) && ValidToken(u) && Stops(u, s)
    requires t.minus == u.minus && TokenValue(t) == TokenValue(u)
    ensures var a, b := ReadNumber(floats, TokenText(t) + r), ReadNumber(floats, TokenText(u) + s);
            && (a.Ok? && b.Ok? ==> a.value.0 == b.value.0)
            && (TokenValue(t) != 0.0 ==> (a.Ok? <==> b.Ok?))
  {
    ReadTokenAs(floats, t, r);
    ReadTokenAs(floats, u, s);
    var x := floats.round(t.minus, TokenValue(t));
    AcceptedIff(floats, t, x);
    AcceptedIff(floats, u, x);
    AcceptedAs(floats, t);
    AcceptedAs(floats, u);
    if TokenValue(t) != 0.0 {
      NonzeroValue(t);
      NonzeroValue(u);
    }
  }

  lemma {:induction false} AcceptedAs(floats: Floats, t: NumberToken)
    requires ValidToken(t)
    ensures AcceptNumber(floats, t).Ok? ==>
              AcceptNumber(floats, t) == Ok(floats.round(t.minus, TokenValue(t)))
  {
  }

  /** An exponent without a sign, or with a plus, is as many zeros behind the digits. */
  lemma {:induction false} ExponentIsZeros(
    floats: Floats, minus: bool, whole: string, marker: char, plus: bool, k: nat, rest: string)
    requires ValidWhole(whole) && whole != "0" && (marker == 'e' || marker == 'E')
    requires rest != [] ==> rest[0] !in ".eE0123456789"
    ensures var short := SignText(minus) + whole + [marker] + (if plus then "+" else "") + NatText(k);
            var long := SignText(minus) + whole + Zeros(k);
            ReadNumber(floats, short + rest) == ReadNumber(floats, long + rest)
  {
    var sign := if plus then Some('+') else None;
    var t := NumberToken(minus, whole, None, Some(Exponent(marker, sign, NatText(k))));
    var u := NumberToken(minus, whole + Zeros(k), None, None);
    ScaledZeros(whole, k, 0);
    assert whole + "" == whole && whole + Zeros(k) + "" == whole + Zeros(k);
    assert TokenValue(t) == TokenValue(u);
    NatOfPositive(whole);
    ScaledZero(k);
    ScaledOrder(0, NatOf(whole), k);
    NotDelimiting(rest);
    SameValueSameDouble(floats, t, rest, u, rest);
    ReadTokenAs(floats, t, rest);
    ReadTokenAs(floats, u, rest);
    SpelledOut(minus, whole, marker, plus, k);
  }

  lemma {:induction false} NotDelimiting(rest: string)
    requires rest != [] ==> rest[0] !in ".eE0123456789"
    ensures rest != [] ==> rest[0] != '.' && rest[0] != 'e' && rest[0] != 'E' && !IsDigit(rest[0])
  {
    if rest != [] {
      var s := ".eE0123456789";
      var c := rest[0];
      assert c != s[0] && c != s[1] && c != s[2] && c != s[3] && c != s[4] && c != s[5] && c != s[6];
      assert c != s[7] && c != s[8] && c != s[9] && c != s[10] && c != s[11] && c != s[12];
    }
  }

  lemma {:induction false} SpelledOut(minus: bool, whole: string, marker: char, plus: bool, k: nat)
    ensures var sign := if plus then Some('+') else None;
            TokenText(NumberToken(minus, whole, None, Some(Exponent(marker, sign, NatText(k)))))
            == SignText(minus) + whole + [marker] + (if plus then "+" else "") + NatText(k)
    ensures TokenText(NumberToken(minus, whole + Zeros(k), None, None)) == SignText(minus) + whole + Zeros(k)
  {
    var front, sign := SignText(minus), if plus then "+" else "";
    ConcatAssoc4(front + whole, [marker], sign, NatText(k));
    ConcatAssoc(front, whole, [marker] + (sign + NatText(k)));
    assert "" + ([marker] + (sign + NatText(k))) == [marker] + (sign + NatText(k));
    assert whole + Zeros(k) + ("" + "") == whole + Zeros(k);
    ConcatAssoc(front, whole, Zeros(k));
  }

  /** For instance, `1e5` is read as a hundred thousand is. */
  lemma {:induction false} ExponentForInstance(floats: Floats)
    ensures ReadNumber(floats, "1e5") == ReadNumber(floats, "100000")
    ensures var x := floats.round(false, 100000.0);
            x.Finite? ==> ReadNumber(floats, "1e5") == Ok((x, ""))
  {
    assert NatText(5) == "5" && "1" + "00000" == "100000" && Zeros(5) == "00000";
    ExponentIsZeros(floats, false, "1", 'e', false, 5, "");
    assert "" + "1" + ['e'] + "" + "5" + "" == "1e5" && "" + "1" + Zeros(5) + "" == "100000";
    OneAndFiveZeros(floats);
  }

  lemma {:induction false} OneAndFiveZeros(floats: Floats)
    ensures var x := floats.round(false, 100000.0);
            x.Finite? ==> ReadNumber(floats, "1e5") == Ok((x, ""))
  {
    var t := NumberToken(false, "1", None, Some(Exponent('e', None, "5")));
    assert "1" + "" == "1" && "1"[..0] == [] && "5"[..0] == [];
    assert NatOf("1") == 1 && NatOf("5") == 5;
    assert TokenText(t) + "" == "1e5";
    TokenDenotes(t);
    assert TimesTens(1.0, 2) == 100.0;
    assert TimesTens(1.0, 4) == 10000.0;
    ReadTokenAs(floats, t, "");
    AcceptedIff(floats, t, floats.round(false, 100000.0));
  }

  // ---- Zero -----------------------------------------------------------------------------

  /** Either zero is printed as `0`: of all tokens of that value, the only one of one character. */
  lemma {:induction false} ZeroText(neg: bool, t: NumberToken)
    requires ValidToken(t) && TokenValue(t) == 0.0
    ensures NumberText(Zero(neg)) == "0"
    ensures |TokenText(t)| >= 1
    ensures |TokenText(t)| == 1 <==> TokenText(t) == "0"
  {
    if |TokenText(t)| == 1 {
      assert TokenText(t) == t.whole && t.fraction.None? && t.exponent.None?;
      assert t.whole + "" == t.whole;
      OnlyZerosIff(t.whole);
      assert t.whole == "0";
    }
  }
}
