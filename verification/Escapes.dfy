/** What every escape is read as, and that the printer's spelling of a string is the shortest. */
module Escapes {
  import opened Results
  import opened Sequences
  import opened Strings

  // ---- Reading --------------------------------------------------------------------------

  /** The eight escapes by letter of section 7 of RFC 8259, and the scalar each stands for. */
  const LETTERS: map<char, int> :=
    map['"' := 0x22, '\\' := 0x5C, '/' := 0x2F, 'b' := 0x08, 'f' := 0x0C, 'n' := 0x0A, 'r' := 0x0D, 't' := 0x09]

  lemma {:induction false} LetterEscapes(letter: char, c: char, rest: string)
    requires letter != 'u'
    ensures ReadChar(['\\', letter] + rest) == Ok((c, rest)) <==> letter in LETTERS && c as int == LETTERS[letter]
    ensures ReadChar(['\\', letter] + rest).Err? <==> letter !in LETTERS
  {
    assert (['\\', letter] + rest)[2..] == rest;
  }

  lemma {:induction false} HexDigits(c: char, v: nat)
    ensures HexValue(c) == Some(v) <==> v < 16 && (c == "0123456789abcdef"[v] || c == "0123456789ABCDEF"[v])
  {
  }

  /** A scalar of the basic plane by its four digits, the first one weighing most. */
  lemma {:induction false} CodeEscapes(hex: string, c: char, rest: string)
    requires IsHex4(hex)
    ensures var code := 0x1000 * HexValue(hex[0]).value + 0x100 * HexValue(hex[1]).value
                        + 0x10 * HexValue(hex[2]).value + HexValue(hex[3]).value;
            && (code < 0xD800 || 0xE000 <= code ==>
                  (ReadChar("\\u" + hex + rest) == Ok((c, rest)) <==> c as int == code))
            && (0xDC00 <= code < 0xE000 ==> ReadChar("\\u" + hex + rest).Err?)
  {
    HexOf4(hex);
    ReadHex4Exact(hex, rest);
    ReadEscaped(hex, rest);
  }

  /** A scalar that is not escaped stands for itself, control characters excepted. */
  lemma {:induction false} RawScalars(c: char, rest: string)
    requires c != '"' && c != '\\'
    ensures ReadChar([c] + rest) == if c as int < 0x20 then CanonFail() else Ok((c, rest))
  {
    assert ([c] + rest)[1..] == rest;
  }

  /** For instance: hexadecimal digits of either case, and an escape nobody needs. */
  lemma {:induction false} EscapesForInstance()
    ensures ReadString("\"\\u00E9\\u00e9\\/\"") == Ok(([0xE9 as char, 0xE9 as char, '/'], ""))
  {
    var items := [Code("00E9"), Code("00e9"), Short('/')];
    HexOf4("00E9");
    HexOf4("00e9");
    assert items[1..] == [Code("00e9"), Short('/')] && items[1..][1..] == [Short('/')] && items[1..][1..][1..] == [];
    assert ItemsChars(items) == [0xE9 as char, 0xE9 as char, '/'];
    assert QuotedText(items) + "" == "\"\\u00E9\\u00e9\\/\"";
    ReadStringComplete(items, "");
  }

  // ---- Printing -------------------------------------------------------------------------

  predicate Lowercase(hex: string) {
    forall i | 0 <= i < |hex| :: !('A' <= hex[i] <= 'F')
  }

  /** The hexadecimal digits of a spelling, if it has any, are lowercase. */
  predicate LowercaseHex(i: StringItem) {
    match i
    case Code(hex) => Lowercase(hex)
    case Pair(high, low) => Lowercase(high) && Lowercase(low)
    case _ => true
  }

  lemma {:induction false} HexDigitUnique(c: char, d: char)
    requires HexValue(c).Some? && HexValue(c) == HexValue(d)
    requires !('A' <= c <= 'F') && !('A' <= d <= 'F')
    ensures c == d
  {
  }

  lemma {:induction false} FourDigits(a: nat, b: nat, c: nat, d: nat, w: nat, x: nat, y: nat, z: nat)
    requires b < 16 && c < 16 && d < 16 && x < 16 && y < 16 && z < 16
    requires 4096 * a + 256 * b + 16 * c + d == 4096 * w + 256 * x + 16 * y + z
    ensures a == w && b == x && c == y && d == z
  {
  }

  lemma {:induction false} HexDigitsUnique(x: string, y: string)
    requires IsHex4(x) && IsHex4(y) && HexOf(x) == HexOf(y)
    ensures forall i | 0 <= i < 4 :: HexValue(x[i]) == HexValue(y[i])
  {
    HexOf4(x);
    HexOf4(y);
    FourDigits(
      HexValue(x[0]).value, HexValue(x[1]).value, HexValue(x[2]).value, HexValue(x[3]).value,
      HexValue(y[0]).value, HexValue(y[1]).value, HexValue(y[2]).value, HexValue(y[3]).value);
  }

  lemma {:induction false} LowercaseUnique(x: string, y: string)
    requires IsHex4(x) && IsHex4(y) && Lowercase(x) && Lowercase(y) && HexOf(x) == HexOf(y)
    ensures x == y
  {
    HexDigitsUnique(x, y);
    forall i | 0 <= i < 4
      ensures x[i] == y[i]
    {
      HexDigitUnique(x[i], y[i]);
    }
  }

  lemma {:induction false} ControlHexLowercase(c: char)
    requires IsControl(c)
    ensures Lowercase(ControlHex(c))
  {
  }

  lemma {:induction false} LetterUnique(letter: char, c: char)
    requires ShortEscape(letter) == Some(c)
    ensures c == '/' || ShortLetter(c) == Some(letter)
  {
  }

  /**
   What the printer writes for a scalar is the shortest way to spell it in a JSON string, and the
   only one of that length with lowercase hexadecimal digits.
   */
  lemma {:induction false} ShortestSpelling(c: char, i: StringItem)
    requires ValidItem(i) && ItemChar(i) == c
    ensures |ItemText(i)| >= |EscapeAll([c])|
    ensures |ItemText(i)| == |EscapeAll([c])| && LowercaseHex(i) <==> ItemText(i) == EscapeAll([c])
  {
    FlatMapOne(EscapeChar, c);
    match i
    case Raw(_) =>
    case Short(letter) => LetterUnique(letter, c);
    case Code(hex) => ShortestCode(hex, c);
    case Pair(high, low) => PairIsLong(high, low);
  }

  lemma {:induction false} PairIsLong(high: string, low: string)
    requires ValidItem(Pair(high, low))
    ensures EscapeChar(ItemChar(Pair(high, low))) == [ItemChar(Pair(high, low))]
  {
  }

  lemma {:induction false} ShortestCode(hex: string, c: char)
    requires ValidItem(Code(hex)) && HexOf(hex) == c as int
    ensures |EscapeChar(c)| <= 6
    ensures |EscapeChar(c)| == 6 && Lowercase(hex) <==> "\\u" + hex == EscapeChar(c)
  {
    if ShortLetter(c).None? && IsControl(c) {
      ControlHexRead(c);
      ControlHexLowercase(c);
      if Lowercase(hex) {
        LowercaseUnique(hex, ControlHex(c));
      }
      if "\\u" + hex == EscapeChar(c) {
        assert hex == ("\\u" + hex)[2..] == ControlHex(c);
      }
    }
  }

  /** That is the spelling the printer chooses. */
  lemma {:induction false} PrintedSpelling(c: char)
    ensures ItemText(PrintedItem(c)) == EscapeAll([c])
  {
    PrintedItemMeans(c);
    FlatMapOne(EscapeChar, c);
  }

  /** The scalars that have to be escaped: quotation mark, reverse solidus, control characters. */
  predicate NeedsEscape(c: char) {
    c == '"' || c == '\\' || c as int <= 0x1F
  }

  lemma {:induction false} EscapedLonger(c: char)
    ensures EscapeChar(c) == [c] <==> !NeedsEscape(c)
    ensures |EscapeChar(c)| >= if NeedsEscape(c) then 2 else 1
  {
  }

  lemma {:induction false} EscapeAllLonger(s: string)
    ensures |EscapeAll(s)| >= |s|
    ensures (forall i | 0 <= i < |s| :: !NeedsEscape(s[i])) ==> EscapeAll(s) == s
    ensures (exists i | 0 <= i < |s| :: NeedsEscape(s[i])) ==> |EscapeAll(s)| > |s|
  {
    if s != [] {
      EscapedLonger(s[0]);
      EscapeAllLonger(s[1..]);
      assert EscapeAll(s) == EscapeChar(s[0]) + EscapeAll(s[1..]);
      assert s == [s[0]] + s[1..];
      if i :| 0 <= i < |s| && NeedsEscape(s[i]) {
        assert i > 0 ==> s[1..][i - 1] == s[i];
      }
      assert forall i | 0 <= i < |s| - 1 :: s[1..][i] == s[i + 1];
    }
  }

  /** A string is printed as itself between quotes exactly when nothing in it has to be escaped. */
  lemma {:induction false} PrintedAsItselfIff(s: string)
    ensures StringText(s) == "\"" + (s + "\"") <==> forall i | 0 <= i < |s| :: !NeedsEscape(s[i])
  {
    EscapeAllLonger(s);
    if StringText(s) == "\"" + (s + "\"") {
      assert |EscapeAll(s)| == |s|;
    }
  }
}
