/**
 The parser as it runs: a character vector, a position and a nesting depth. Each method is
 proved to return what the function of the same job in `Reading` returns for the text still
 ahead, to leave exactly the rest ahead, and to restore the depth whether it succeeds or fails.
 */
module Parsing {
  import opened Results
  import opened Decimals
  import opened Numbers
  import opened NumberReader
  import opened Strings
  import opened Utf16
  import opened Values
  import opened Grammar
  import opened Reading

  /** A method's outcome `r`, with `ahead` still unread, is the one the function gives. */
  predicate Agrees<T(==)>(expected: Result<(T, string)>, r: Result<T>, ahead: string) {
    match expected
    case Ok((v, rest)) => r == Ok(v) && ahead == rest
    case Err(e) => r == Err(e)
  }

  class Parser {
    const floats: Floats
    const chars: string
    var pos: nat
    var depth: nat

    ghost predicate Valid()
      reads this
    {
      pos <= |chars| && depth <= MAX_DEPTH
    }

    /** The text still to be read. */
    ghost function Ahead(): string
      reads this
      requires Valid()
    {
      chars[pos..]
    }

    constructor (floats: Floats, text: string)
      ensures Valid() && this.floats == floats && Ahead() == text && depth == 0
    {
      this.floats := floats;
      chars := text;
      pos := 0;
      depth := 0;
    }

    predicate AtEnd()
      reads this
    {
      pos >= |chars|
    }

    function Peek(): Option<char>
      reads this
    {
      if pos < |chars| then Some(chars[pos]) else None
    }

    method Bump() returns (c: Option<char>)
      requires Valid()
      modifies this`pos
      ensures Valid()
      ensures c == old(Peek())
      ensures pos == old(pos) + if c.Some? then 1 else 0
    {
      c := Peek();
      if c.Some? {
        pos := pos + 1;
      }
    }

    method SkipWs()
      requires Valid()
      modifies this`pos
      ensures Valid() && old(pos) <= pos
      ensures Ahead() == Reading.SkipWs(old(Ahead()))
    {
      while Peek().Some? && IsWs(Peek().value)
        invariant Valid() && old(pos) <= pos
        invariant Reading.SkipWs(Ahead()) == Reading.SkipWs(old(Ahead()))
        decreases |chars| - pos
      {
        pos := pos + 1;
        assert Ahead() == chars[pos - 1..][1..];
      }
    }

    method Expect(expected: char) returns (r: Result<()>)
      requires Valid()
      modifies this`pos
      ensures Valid() && old(pos) <= pos
      ensures r == if old(Peek()) == Some(expected) then Ok(()) else CanonFail()
      ensures r.Ok? ==> pos == old(pos) + 1
    {
      var c := Bump();
      return if c == Some(expected) then Ok(()) else CanonFail();
    }

    method ParseLiteral(literal: string) returns (r: Result<()>)
      requires Valid()
      modifies this`pos
      ensures Valid() && old(pos) <= pos
      ensures r == if literal <= old(Ahead()) then Ok(()) else CanonFail()
      ensures r.Ok? ==> pos == old(pos) + |literal|
    {
      for i := 0 to |literal|
        invariant Valid() && pos == old(pos) + i
        invariant literal[..i] <= old(Ahead())
      {
        r := Expect(literal[i]);
        if r.Err? {
          return;
        }
        assert literal[..i + 1] == literal[..i] + [literal[i]];
      }
      assert literal[..|literal|] == literal;
      return Ok(());
    }

    /** One JSON value. Containers are entered only below the nesting bound. */
    method ParseValue() returns (r: Result<JcsValue>)
      requires Valid()
      modifies this
      ensures Valid() && old(pos) <= pos && depth == old(depth)
      ensures Agrees(ReadValue(floats, old(Ahead()), old(depth)), r, Ahead())
      decreases |chars| - pos, 2
    {
      var c := Peek();
      if c == Some('{') || c == Some('[') {
        if depth >= MAX_DEPTH {
          return CanonFail();
        }
        depth := depth + 1;
        if Peek() == Some('{') {
          r := ParseObject();
        } else {
          r := ParseArray();
        }
        depth := depth - 1;
      } else if c == Some('"') {
        var text := ParseString();
        r := if text.Ok? then Ok(String(text.value)) else Err(text.error);
      } else if c == Some('t') || c == Some('f') {
        r := ParseBool();
      } else if c == Some('n') {
        r := ParseNull();
      } else if c.Some? && (c.value == '-' || IsDigit(c.value)) {
        var number := ParseNumber();
        r := if number.Ok? then Ok(Number(number.value)) else Err(number.error);
      } else {
        return CanonFail();
      }
    }

    method ParseBool() returns (r: Result<JcsValue>)
      requires Valid()
      requires Peek() == Some('t') || Peek() == Some('f')
      modifies this`pos
      ensures Valid() && old(pos) <= pos
      ensures Agrees(ReadValue(floats, old(Ahead()), depth), r, Ahead())
    {
      var value := Peek() == Some('t');
      var literal := ParseLiteral(if value then "true" else "false");
      return if literal.Ok? then Ok(Bool(value)) else CanonFail();
    }

    method ParseNull() returns (r: Result<JcsValue>)
      requires Valid()
      requires Peek() == Some('n')
      modifies this`pos
      ensures Valid() && old(pos) <= pos
      ensures Agrees(ReadValue(floats, old(Ahead()), depth), r, Ahead())
    {
      var literal := ParseLiteral("null");
      return if literal.Ok? then Ok(Null) else CanonFail();
    }

    method ParseObject() returns (r: Result<JcsValue>)
      requires Valid()
      modifies this
      ensures Valid() && old(pos) <= pos && depth == old(depth)
      ensures Agrees(ReadObject(floats, old(Ahead()), old(depth)), r, Ahead())
      decreases |chars| - pos, 1
    {
      var open := Expect('{');
      if open.Err? {
        return CanonFail();
      }
      assert Ahead() == old(Ahead())[1..];
      SkipWs();
      if Peek() == Some('}') {
        var _ := Bump();
        return Ok(Object([]));
      }
      var members: seq<Member> := [];
      var seen: set<string> := {};
      ghost var body := Ahead();
      while true
        invariant Valid() && old(pos) < pos && depth == old(depth)
        invariant seen == Names(members)
        invariant ReadMembers(floats, Ahead(), depth, members) == ReadMembers(floats, body, depth, [])
        decreases |chars| - pos
      {
        var key := ParseKey(seen);
        if key.Err? {
          return Err(key.error);
        }
        var value, next := ParseElement();
        if value.Err? {
          return value;
        }
        NamesGrow(members, Member(key.value, value.value));
        seen := seen + {key.value};
        members := members + [Member(key.value, value.value)];
        if next == Some(',') {
          continue;
        } else if next == Some('}') {
          return Ok(Object(members));
        } else {
          return CanonFail();
        }
      }
    }

    /** A member name not seen before and the colon behind it. */
    method ParseKey(seen: set<string>) returns (r: Result<string>)
      requires Valid()
      modifies this`pos
      ensures Valid() && old(pos) <= pos
      ensures Agrees(ReadKey(old(Ahead()), seen), r, Ahead())
    {
      SkipWs();
      if Peek() != Some('"') {
        return CanonFail();
      }
      r := ParseString();
      if r.Err? {
        return;
      }
      if r.value in seen {
        return CanonFail();
      }
      SkipWs();
      ghost var s := Ahead();
      var colon := Expect(':');
      if colon.Err? {
        return CanonFail();
      }
      assert Ahead() == s[1..];
    }

    /** A value between blanks, and the character behind it. */
    method ParseElement() returns (r: Result<JcsValue>, next: Option<char>)
      requires Valid()
      modifies this
      ensures Valid() && old(pos) <= pos && depth == old(depth)
      ensures var expected := ReadValue(floats, Reading.SkipWs(old(Ahead())), depth);
              if expected.Err? then r == Err(expected.error)
              else
                var end := Reading.SkipWs(expected.value.1);
                && r == Ok(expected.value.0) && old(pos) < pos
                && (end == [] ==> next == None)
                && (end != [] ==> next == Some(end[0]) && Ahead() == end[1..])
      decreases |chars| - pos, 3
    {
      next := None;
      SkipWs();
      r := ParseValue();
      if r.Err? {
        return;
      }
      SkipWs();
      ghost var end := Ahead();
      next := Bump();
      assert next.Some? ==> Ahead() == end[1..];
    }

    method ParseArray() returns (r: Result<JcsValue>)
      requires Valid()
      modifies this
      ensures Valid() && old(pos) <= pos && depth == old(depth)
      ensures Agrees(ReadArray(floats, old(Ahead()), old(depth)), r, Ahead())
      decreases |chars| - pos, 1
    {
      var open := Expect('[');
      if open.Err? {
        return CanonFail();
      }
      assert Ahead() == old(Ahead())[1..];
      SkipWs();
      if Peek() == Some(']') {
        var _ := Bump();
        return Ok(Array([]));
      }
      var items: seq<JcsValue> := [];
      ghost var body := Ahead();
      while true
        invariant Valid() && old(pos) < pos && depth == old(depth)
        invariant ReadItems(floats, Ahead(), depth, items) == ReadItems(floats, body, depth, [])
        decreases |chars| - pos
      {
        var value, next := ParseElement();
        if value.Err? {
          return value;
        }
        items := items + [value.value];
        if next == Some(',') {
          continue;
        } else if next == Some(']') {
          return Ok(Array(items));
        } else {
          return CanonFail();
        }
      }
    }

    method ParseString() returns (r: Result<string>)
      requires Valid()
      modifies this`pos
      ensures Valid() && old(pos) <= pos
      ensures Agrees(ReadString(old(Ahead())), r, Ahead())
    {
      var open := Expect('"');
      if open.Err? {
        return CanonFail();
      }
      assert Ahead() == old(Ahead())[1..];
      ghost var body := Ahead();
      var text := "";
      while true
        invariant Valid() && old(pos) < pos
        invariant ReadBody(Ahead(), text) == ReadBody(body, "")
        decreases |chars| - pos
      {
        ghost var here := Ahead();
        var c := Bump();
        if c.None? {
          return CanonFail();
        }
        assert Ahead() == here[1..];
        if c == Some('"') {
          return Ok(text);
        } else if c == Some('\\') {
          var esc := Bump();
          if esc.None? {
            return CanonFail();
          }
          assert Ahead() == here[2..];
          if esc == Some('u') {
            var code := ParseUnicodeEscape();
            if code.Err? {
              return CanonFail();
            }
            text := text + [code.value];
          } else {
            var short := ShortEscape(esc.value);
            if short.None? {
              return CanonFail();
            }
            text := text + [short.value];
          }
        } else {
          if IsControl(c.value) {
            return CanonFail();
          }
          text := text + [c.value];
        }
      }
    }

    method ParseUnicodeEscape() returns (r: Result<char>)
      requires Valid()
      modifies this`pos
      ensures Valid() && old(pos) <= pos
      ensures Agrees(ReadUnicodeEscape(old(Ahead())), r, Ahead())
    {
      var first := ParseHex4();
      if first.Err? {
        return CanonFail();
      }
      if HighSurrogate(first.value) {
        ghost var s1 := Ahead();
        var backslash := Bump();
        if backslash != Some('\\') {
          return CanonFail();
        }
        var letter := Bump();
        if letter != Some('u') {
          return CanonFail();
        }
        assert Ahead() == s1[2..];
        var second := ParseHex4();
        if second.Err? {
          return CanonFail();
        }
        if !LowSurrogate(second.value) {
          return CanonFail();
        }
        return Ok(Combine(first.value, second.value));
      } else if LowSurrogate(first.value) {
        return CanonFail();
      } else {
        return Ok(first.value as char);
      }
    }

    method ParseHex4() returns (r: Result<nat>)
      requires Valid()
      modifies this`pos
      ensures Valid() && old(pos) <= pos
      ensures Agrees(ReadHex4(old(Ahead())), r, Ahead())
    {
      var value := 0;
      ghost var s := Ahead();
      for i := 0 to 4
        invariant Valid() && pos == old(pos) + i
        invariant AllHex(s[..i]) && value == HexOf(s[..i])
      {
        var c := Bump();
        if c.None? {
          return CanonFail();
        }
        assert c.value == s[i];
        var digit := HexValue(c.value);
        if digit.None? {
          assert |s| >= 4 ==> s[..4][i] == s[i];
          return CanonFail();
        }
        assert s[..i + 1] == s[..i] + [s[i]];
        value := value * 16 + digit.value;
      }
      assert Ahead() == s[4..];
      return Ok(value);
    }

    /** The digits ahead, and whether there was one. */
    method SkipDigits() returns (sawDigit: bool)
      requires Valid()
      modifies this`pos
      ensures Valid()
      ensures pos == old(pos) + DigitRun(old(Ahead()))
      ensures sawDigit <==> old(pos) < pos
    {
      sawDigit := false;
      while Peek().Some? && IsDigit(Peek().value)
        invariant Valid() && old(pos) <= pos
        invariant pos + DigitRun(Ahead()) == old(pos) + DigitRun(old(Ahead()))
        invariant sawDigit <==> old(pos) < pos
        decreases |chars| - pos
      {
        pos := pos + 1;
        sawDigit := true;
        assert Ahead() == chars[pos - 1..][1..];
      }
    }

    /** Moves over the token ahead; fails where the grammar leaves no way to go on. */
    method SkipNumber() returns (r: Result<()>)
      requires Valid()
      modifies this`pos
      ensures Valid() && old(pos) <= pos
      ensures r == if ScanNumber(old(Ahead())).Some? then Ok(()) else CanonFail()
      ensures r.Ok? ==> Ahead() == ScanNumber(old(Ahead())).value.1
    {
      ghost var s := Ahead();
      if Peek() == Some('-') {
        var _ := Bump();
      }
      ghost var s1 := Ahead();
      ScanUnsigned(s, s1);
      r := SkipWhole();
      if r.Err? {
        return;
      }
      r := SkipFraction();
      if r.Err? {
        return;
      }
      r := SkipExponent();
    }

    method SkipWhole() returns (r: Result<()>)
      requires Valid()
      modifies this`pos
      ensures Valid() && old(pos) <= pos
      ensures r == if WholeRun(old(Ahead())) > 0 then Ok(()) else CanonFail()
      ensures r.Ok? ==> Ahead() == old(Ahead())[WholeRun(old(Ahead()))..]
    {
      if Peek() == Some('0') {
        var _ := Bump();
      } else if Peek().Some? && '1' <= Peek().value <= '9' {
        var _ := SkipDigits();
      } else {
        return CanonFail();
      }
      return Ok(());
    }

    method SkipFraction() returns (r: Result<()>)
      requires Valid()
      modifies this`pos
      ensures Valid() && old(pos) <= pos
      ensures r == if ScanFraction(old(Ahead())).Some? then Ok(()) else CanonFail()
      ensures r.Ok? ==> Ahead() == ScanFraction(old(Ahead())).value.1
    {
      ghost var s := Ahead();
      if Peek() == Some('.') {
        var _ := Bump();
        assert Ahead() == s[1..];
        var sawDigit := SkipDigits();
        if !sawDigit {
          return CanonFail();
        }
        assert Ahead() == s[1..][DigitRun(s[1..])..];
      }
      return Ok(());
    }

    method SkipExponent() returns (r: Result<()>)
      requires Valid()
      modifies this`pos
      ensures Valid() && old(pos) <= pos
      ensures r == if ScanExponent(old(Ahead())).Some? then Ok(()) else CanonFail()
      ensures r.Ok? ==> Ahead() == ScanExponent(old(Ahead())).value.1
    {
      ghost var s := Ahead();
      if Peek() == Some('e') || Peek() == Some('E') {
        var _ := Bump();
        assert Ahead() == s[1..];
        if Peek() == Some('+') || Peek() == Some('-') {
          var _ := Bump();
          assert Ahead() == s[1..][1..];
        }
        ghost var body := Ahead();
        var sawDigit := SkipDigits();
        if !sawDigit {
          return CanonFail();
        }
        assert Ahead() == body[DigitRun(body)..];
      }
      return Ok(());
    }

    method ParseNumber() returns (r: Result<F64>)
      requires Valid()
      modifies this`pos
      ensures Valid() && old(pos) <= pos
      ensures Agrees(ReadNumber(floats, old(Ahead())), r, Ahead())
    {
      ghost var s := Ahead();
      var token := TakeNumber();
      if token.Err? {
        return CanonFail();
      }
      ReadNumberByToken(floats, s, token.value, Ahead());
      r := AcceptToken(floats, token.value);
    }

    /** The token ahead, taken out of the text. */
    method TakeNumber() returns (r: Result<string>)
      requires Valid()
      modifies this`pos
      ensures Valid() && old(pos) <= pos
      ensures r.Ok? <==> ScanNumber(old(Ahead())).Some?
      ensures r.Err? ==> r == CanonFail()
      ensures r.Ok? ==> Ahead() == ScanNumber(old(Ahead())).value.1 && old(Ahead()) == r.value + Ahead()
    {
      var start := pos;
      var skipped := SkipNumber();
      if skipped.Err? {
        return CanonFail();
      }
      return Ok(chars[start..pos]);
    }
  }

  /** The double of a token's text, unless it overflows or is zero beside a nonzero digit. */
  function TokenDouble(floats: Floats, token: string): Result<F64> {
    var x :- ParseDouble(floats, token);
    if !x.IsFinite() || (x.Zero? && HasNonzeroDigit(token)) then CanonFail() else Ok(x)
  }

  method AcceptToken(floats: Floats, token: string) returns (r: Result<F64>)
    ensures r == TokenDouble(floats, token)
  {
    var parsed := ParseDouble(floats, token);
    if parsed.Err? {
      return CanonFail();
    }
    if !parsed.value.IsFinite() {
      return CanonFail();
    }
    if parsed.value.Zero? && HasNonzeroDigit(token) {
      return CanonFail();
    }
    return Ok(parsed.value);
  }

  lemma {:induction false} ScanUnsigned(s: string, s1: string)
    requires s1 == if s != [] && s[0] == '-' then s[1..] else s
    ensures ScanNumber(s).Some?
       <==> && WholeRun(s1) > 0 && ScanFraction(s1[WholeRun(s1)..]).Some?
            && ScanExponent(ScanFraction(s1[WholeRun(s1)..]).value.1).Some?
    ensures ScanNumber(s).Some? ==>
              ScanNumber(s).value.1 == ScanExponent(ScanFraction(s1[WholeRun(s1)..]).value.1).value.1
  {
  }

  lemma {:induction false} NamesGrow(members: seq<Member>, m: Member)
    ensures Names(members + [m]) == Names(members) + {m.name}
  {
  }

  /** The token taken out of the text stands for the double the scan of the text gives. */
  lemma {:induction false} ReadNumberByToken(floats: Floats, s: string, token: string, rest: string)
    requires ScanNumber(s).Some? && ScanNumber(s).value.1 == rest && s == token + rest
    ensures ReadNumber(floats, s)
         == if TokenDouble(floats, token).Ok? then Ok((TokenDouble(floats, token).value, rest)) else CanonFail()
  {
    TokenScanned(s, token, rest);
    ParseDoubleOf(floats, ScanNumber(s).value.0);
  }

  lemma {:induction false} TokenScanned(s: string, token: string, rest: string)
    requires ScanNumber(s).Some? && ScanNumber(s).value.1 == rest && s == token + rest
    ensures ValidToken(ScanNumber(s).value.0) && token == TokenText(ScanNumber(s).value.0)
  {
    ScanNumberSound(s);
    assert token == s[..|s| - |rest|] == TokenText(ScanNumber(s).value.0);
  }

  lemma {:induction false} ParseDoubleOf(floats: Floats, t: NumberToken)
    requires ValidToken(t)
    ensures ParseDouble(floats, TokenText(t)) == Ok(floats.round(t.minus, TokenValue(t)))
  {
    WholeTokenScans(t);
  }

  /** `parse`: the value of the whole text. */
  method Parse(floats: Floats, text: string) returns (r: Result<JcsValue>)
    ensures r == Parsed(floats, text)
  {
    var parser := new Parser(floats, text);
    parser.SkipWs();
    r := parser.ParseValue();
    if r.Err? {
      return;
    }
    parser.SkipWs();
    if !parser.AtEnd() {
      return CanonFail();
    }
  }
}
