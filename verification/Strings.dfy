/** JSON strings: the printer's escaping, and what the parser reads between quotes. */
module Strings {
  import opened Results
  import opened Sequences
  import opened Utf16

  // ---- Printing -------------------------------------------------------------------------

  predicate IsControl(c: char) {
    c as int <= 0x1F
  }

  const BACKSPACE: char := 8 as char
  const TAB: char := 9 as char
  const LINE_FEED: char := 10 as char
  const FORM_FEED: char := 12 as char
  const CARRIAGE_RETURN: char := 13 as char

  /** Lowercase hexadecimal digit. */
  function HexChar(v: nat): char
    requires v < 16
  {
    "0123456789abcdef"[v]
  }

  /** The letter of the single-letter escape that is printed for a scalar, if there is one. */
  function ShortLetter(c: char): Option<char> {
    if c == '"' then Some('"')
    else if c == '\\' then Some('\\')
    else if c == BACKSPACE then Some('b')
    else if c == TAB then Some('t')
    else if c == LINE_FEED then Some('n')
    else if c == FORM_FEED then Some('f')
    else if c == CARRIAGE_RETURN then Some('r')
    else None
  }

  /** Four hexadecimal digits of a control character. */
  function ControlHex(c: char): string
    requires IsControl(c)
  {
    ['0', '0', HexChar(c as int / 16), HexChar(c as int % 16)]
  }

  /** What one scalar of a string is printed as. */
  function EscapeChar(c: char): string {
    match ShortLetter(c)
    case Some(letter) => ['\\', letter]
    case None => if IsControl(c) then "\\u" + ControlHex(c) else [c]
  }

  function EscapeAll(s: string): string {
    FlatMap(EscapeChar, s)
  }

  function StringText(s: string): string {
    "\"" + (EscapeAll(s) + "\"")
  }

  lemma {:induction false} EscapeAllSnoc(s: string, c: char)
    ensures EscapeAll(s + [c]) == EscapeAll(s) + EscapeChar(c)
  {
    FlatMapSnoc(EscapeChar, s, c);
  }

  // ---- Reading --------------------------------------------------------------------------

  /** `to_digit(16)` */
  function HexValue(c: char): (v: Option<nat>)
    ensures v.Some? ==> v.value < 16
  {
    if '0' <= c <= '9' then Some(c as int - '0' as int)
    else if 'a' <= c <= 'f' then Some(c as int - 'a' as int + 10)
    else if 'A' <= c <= 'F' then Some(c as int - 'A' as int + 10)
    else None
  }

  predicate AllHex(s: string) {
    forall i | 0 <= i < |s| :: HexValue(s[i]).Some?
  }

  function HexOf(s: string): nat
    requires AllHex(s)
  {
    if s == [] then 0 else 16 * HexOf(s[..|s| - 1]) + HexValue(s[|s| - 1]).value
  }

  predicate IsHex4(s: string) {
    |s| == 4 && AllHex(s)
  }

  lemma {:induction false} HexOf4(s: string)
    requires IsHex4(s)
    ensures HexOf(s) == 4096 * HexValue(s[0]).value + 256 * HexValue(s[1]).value
                        + 16 * HexValue(s[2]).value + HexValue(s[3]).value
    ensures HexOf(s) < 0x1_0000
  {
    var a, b, c := s[..3], s[..2], s[..1];
    assert a[..2] == b && b[..1] == c && c[..0] == [];
    assert HexOf(c) == HexValue(s[0]).value;
    assert HexOf(b) == 16 * HexOf(c) + HexValue(s[1]).value;
    assert HexOf(a) == 16 * HexOf(b) + HexValue(s[2]).value;
  }

  function ReadHex4(s: string): (r: Result<(nat, string)>)
    ensures r.Ok? ==> r.value.0 < 0x1_0000 && |r.value.1| == |s| - 4
    ensures r.Err? ==> r == Err(Canonicalization)
  {
    if |s| < 4 || !AllHex(s[..4]) then CanonFail()
    else
      HexOf4(s[..4]);
      Ok((HexOf(s[..4]), s[4..]))
  }

  /** What follows `\u`: one basic-plane scalar, or a surrogate pair in two escapes. */
  function ReadUnicodeEscape(s: string): (r: Result<(char, string)>)
    ensures r.Ok? ==> |r.value.1| < |s|
    ensures r.Err? ==> r == Err(Canonicalization)
  {
    var (first, s1) :- ReadHex4(s);
    if HighSurrogate(first) then
      if |s1| < 2 || s1[0] != '\\' || s1[1] != 'u' then CanonFail()
      else
        var (second, s2) :- ReadHex4(s1[2..]);
        if !LowSurrogate(second) then CanonFail() else Ok((Combine(first, second), s2))
    else if LowSurrogate(first) then CanonFail()
    else Ok((first as char, s1))
  }

  /** The scalar a single-letter escape stands for. */
  function ShortEscape(letter: char): Option<char> {
    if letter == '"' then Some('"')
    else if letter == '\\' then Some('\\')
    else if letter == '/' then Some('/')
    else if letter == 'b' then Some(BACKSPACE)
    else if letter == 'f' then Some(FORM_FEED)
    else if letter == 'n' then Some(LINE_FEED)
    else if letter == 'r' then Some(CARRIAGE_RETURN)
    else if letter == 't' then Some(TAB)
    else None
  }

  /** One scalar of a string body, and what follows it. */
  function ReadChar(s: string): (r: Result<(char, string)>)
    requires s != [] && s[0] != '"'
    ensures r.Ok? ==> |r.value.1| < |s|
    ensures r.Err? ==> r == Err(Canonicalization)
  {
    if s[0] == '\\' then
      if |s| < 2 then CanonFail()
      else if s[1] == 'u' then ReadUnicodeEscape(s[2..])
      else
        match ShortEscape(s[1])
        case None => CanonFail()
        case Some(c) => Ok((c, s[2..]))
    else if IsControl(s[0]) then CanonFail()
    else Ok((s[0], s[1..]))
  }

  /** The string body up to its closing quote, after `out` has been read. */
  function ReadBody(s: string, out: string): (r: Result<(string, string)>)
    ensures r.Ok? ==> |r.value.1| < |s|
    ensures r.Err? ==> r == Err(Canonicalization)
    decreases |s|
  {
    if s == [] then CanonFail()
    else if s[0] == '"' then Ok((out, s[1..]))
    else
      var (c, rest) :- ReadChar(s);
      ReadBody(rest, out + [c])
  }

  function ReadString(s: string): (r: Result<(string, string)>)
    ensures r.Ok? ==> |r.value.1| < |s|
    ensures r.Err? ==> r == Err(Canonicalization)
  {
    if s == [] || s[0] != '"' then CanonFail() else ReadBody(s[1..], "")
  }

  // ---- The grammar of string bodies -----------------------------------------------------

  /** One `char` of section 7 of RFC 8259: unescaped, or one of the three kinds of escape. */
  datatype StringItem =
    | Raw(c: char)
    | Short(letter: char)
    | Code(hex: string)
    | Pair(high: string, low: string)

  /** Well-formed and, for escapes by code, free of unpaired surrogates. */
  predicate ValidItem(i: StringItem) {
    match i
    case Raw(c) => c != '"' && c != '\\' && !IsControl(c)
    case Short(letter) => ShortEscape(letter).Some?
    case Code(hex) => IsHex4(hex) && IsScalar(HexOf(hex))
    case Pair(high, low) =>
      IsHex4(high) && HighSurrogate(HexOf(high)) && IsHex4(low) && LowSurrogate(HexOf(low))
  }

  function ItemText(i: StringItem): string {
    match i
    case Raw(c) => [c]
    case Short(letter) => ['\\', letter]
    case Code(hex) => "\\u" + hex
    case Pair(high, low) => "\\u" + (high + ("\\u" + low))
  }

  function ItemChar(i: StringItem): char
    requires ValidItem(i)
  {
    match i
    case Raw(c) => c
    case Short(letter) => ShortEscape(letter).value
    case Code(hex) => HexOf(hex) as char
    case Pair(high, low) => Combine(HexOf(high), HexOf(low))
  }

  predicate ValidItems(items: seq<StringItem>) {
    forall i | 0 <= i < |items| :: ValidItem(items[i])
  }

  function ItemsText(items: seq<StringItem>): string {
    if items == [] then [] else ItemText(items[0]) + ItemsText(items[1..])
  }

  function ItemsChars(items: seq<StringItem>): (s: string)
    requires ValidItems(items)
    ensures |s| == |items|
  {
    if items == [] then [] else [ItemChar(items[0])] + ItemsChars(items[1..])
  }

  function QuotedText(items: seq<StringItem>): string {
    "\"" + (ItemsText(items) + "\"")
  }

  // ---- Reading accepts exactly that grammar ---------------------------------------------

  lemma {:induction false} ReadHex4Exact(hex: string, rest: string)
    requires IsHex4(hex)
    ensures ReadHex4(hex + rest) == Ok((HexOf(hex), rest))
  {
    assert (hex + rest)[..4] == hex && (hex + rest)[4..] == rest;
  }

  lemma {:induction false} ReadCharComplete(i: StringItem, rest: string)
    requires ValidItem(i)
    ensures ItemText(i) != [] && ItemText(i)[0] != '"'
    ensures ReadChar(ItemText(i) + rest) == Ok((ItemChar(i), rest))
  {
    match i
    case Raw(c) => assert ([c] + rest)[1..] == rest;
    case Short(letter) => ReadShort(letter, rest);
    case Code(hex) => ReadCode(hex, rest);
    case Pair(high, low) =>
      ReadPair(high, low, rest);
      ReadEscaped(high + ("\\u" + low), rest);
      ConcatAssoc(high, "\\u" + low, rest);
      ConcatAssoc("\\u", low, rest);
  }

  lemma {:induction false} ReadShort(letter: char, rest: string)
    requires ShortEscape(letter).Some?
    ensures ReadChar(['\\', letter] + rest) == Ok((ShortEscape(letter).value, rest))
  {
    assert (['\\', letter] + rest)[2..] == rest;
  }

  lemma {:induction false} ReadEscaped(body: string, rest: string)
    ensures ReadChar("\\u" + body + rest) == ReadUnicodeEscape(body + rest)
  {
    assert ("\\u" + body + rest)[2..] == body + rest;
  }

  lemma {:induction false} ReadCode(hex: string, rest: string)
    requires ValidItem(Code(hex))
    ensures ReadChar("\\u" + hex + rest) == Ok((HexOf(hex) as char, rest))
  {
    ReadHex4Exact(hex, rest);
    ReadEscaped(hex, rest);
  }

  lemma {:induction false} ReadPair(high: string, low: string, rest: string)
    requires ValidItem(Pair(high, low))
    ensures ReadUnicodeEscape(high + ("\\u" + (low + rest))) == Ok((Combine(HexOf(high), HexOf(low)), rest))
  {
    var tail := "\\u" + (low + rest);
    ReadHex4Exact(high, tail);
    assert tail[2..] == low + rest;
    ReadHex4Exact(low, rest);
  }

  lemma {:induction false} ReadCharSound(s: string) returns (i: StringItem)
    requires s != [] && s[0] != '"' && ReadChar(s).Ok?
    ensures ValidItem(i) && ItemChar(i) == ReadChar(s).value.0
    ensures s == ItemText(i) + ReadChar(s).value.1
  {
    if s[0] != '\\' {
      i := Raw(s[0]);
    } else if s[1] != 'u' {
      i := Short(s[1]);
    } else if HighSurrogate(HexOf(s[2..][..4])) {
      i := Pair(s[2..][..4], s[2..][4..][2..][..4]);
    } else {
      i := Code(s[2..][..4]);
    }
  }

  lemma {:induction false} ReadBodyComplete(items: seq<StringItem>, rest: string, out: string)
    requires ValidItems(items)
    ensures ReadBody(ItemsText(items) + ("\"" + rest), out) == Ok((out + ItemsChars(items), rest))
    decreases |items|
  {
    var tail := "\"" + rest;
    if items == [] {
      assert ItemsText(items) + tail == tail;
      assert out + [] == out;
    } else {
      var after := ItemsText(items[1..]) + tail;
      ConcatAssoc(ItemText(items[0]), ItemsText(items[1..]), tail);
      ReadCharComplete(items[0], after);
      ReadBodyComplete(items[1..], rest, out + [ItemChar(items[0])]);
      ConcatAssoc(out, [ItemChar(items[0])], ItemsChars(items[1..]));
    }
  }

  lemma {:induction false} ReadBodySound(s: string, out: string) returns (items: seq<StringItem>)
    requires ReadBody(s, out).Ok?
    ensures ValidItems(items)
    ensures ReadBody(s, out).value.0 == out + ItemsChars(items)
    ensures s == ItemsText(items) + ("\"" + ReadBody(s, out).value.1)
    decreases |s|
  {
    if s[0] == '"' {
      items := [];
      assert out + [] == out;
    } else {
      var (c, rest) := ReadChar(s).value;
      var item := ReadCharSound(s);
      var others := ReadBodySound(rest, out + [c]);
      items := [item] + others;
      assert items[1..] == others;
      ConcatAssoc(out, [c], ItemsChars(others));
      ConcatAssoc(ItemText(item), ItemsText(others), "\"" + ReadBody(s, out).value.1);
    }
  }

  lemma {:induction false} ReadStringComplete(items: seq<StringItem>, rest: string)
    requires ValidItems(items)
    ensures ReadString(QuotedText(items) + rest) == Ok((ItemsChars(items), rest))
  {
    var s := QuotedText(items) + rest;
    ReadBodyComplete(items, rest, "");
    ConcatAssoc("\"", ItemsText(items) + "\"", rest);
    ConcatAssoc(ItemsText(items), "\"", rest);
    assert s[1..] == ItemsText(items) + ("\"" + rest);
    assert "" + ItemsChars(items) == ItemsChars(items);
  }

  lemma {:induction false} ReadStringSound(s: string) returns (items: seq<StringItem>)
    requires ReadString(s).Ok?
    ensures ValidItems(items) && ItemsChars(items) == ReadString(s).value.0
    ensures s == QuotedText(items) + ReadString(s).value.1
  {
    items := ReadBodySound(s[1..], "");
    var rest := ReadString(s).value.1;
    assert "" + ItemsChars(items) == ItemsChars(items);
    ConcatAssoc("\"", ItemsText(items) + "\"", rest);
    ConcatAssoc(ItemsText(items), "\"", rest);
  }

  // ---- Printing stays inside the grammar ------------------------------------------------

  /** The grammar item the printer writes for a scalar. */
  function PrintedItem(c: char): StringItem {
    match ShortLetter(c)
    case Some(letter) => Short(letter)
    case None => if IsControl(c) then Code(ControlHex(c)) else Raw(c)
  }

  lemma {:induction false} ShortLetterRead(c: char)
    requires ShortLetter(c).Some?
    ensures ShortEscape(ShortLetter(c).value) == Some(c)
  {
  }

  lemma {:induction false} ControlHexRead(c: char)
    requires IsControl(c)
    ensures IsHex4(ControlHex(c)) && HexOf(ControlHex(c)) == c as int
  {
    HexCharRead(c as int / 16);
    HexCharRead(c as int % 16);
    HexOf4(ControlHex(c));
  }

  lemma {:induction false} HexCharRead(v: nat)
    requires v < 16
    ensures HexValue(HexChar(v)) == Some(v)
  {
  }

  lemma {:induction false} PrintedItemMeans(c: char)
    ensures ValidItem(PrintedItem(c))
    ensures ItemText(PrintedItem(c)) == EscapeChar(c)
    ensures ItemChar(PrintedItem(c)) == c
  {
    if ShortLetter(c).Some? {
      ShortLetterRead(c);
    } else if IsControl(c) {
      ControlHexRead(c);
    }
  }

  function PrintedItems(s: string): seq<StringItem> {
    if s == [] then [] else [PrintedItem(s[0])] + PrintedItems(s[1..])
  }

  lemma {:induction false} PrintedItemsMean(s: string)
    ensures ValidItems(PrintedItems(s))
    ensures ItemsText(PrintedItems(s)) == EscapeAll(s)
    ensures ItemsChars(PrintedItems(s)) == s
  {
    if s != [] {
      PrintedItemMeans(s[0]);
      PrintedItemsMean(s[1..]);
      assert PrintedItems(s)[1..] == PrintedItems(s[1..]);
    }
  }

  /** Every string is read back from its printed text, stopping exactly behind it. */
  lemma {:induction false} StringRoundTrip(s: string, rest: string)
    ensures ReadString(StringText(s) + rest) == Ok((s, rest))
  {
    PrintedItemsMean(s);
    ReadStringComplete(PrintedItems(s), rest);
  }

  /**
   Two escapes are read as a scalar exactly when they spell its surrogate pair: reading inverts
   the UTF-16 split, whatever the case of the hexadecimal digits.
   */
  lemma {:induction false} SurrogatePairRead(high: string, low: string, c: char, rest: string)
    requires IsHex4(high) && IsHex4(low) && HighSurrogate(HexOf(high))
    ensures ReadUnicodeEscape(high + ("\\u" + (low + rest))) == Ok((c, rest))
       <==> Units(c) == [HexOf(high), HexOf(low)]
  {
    var tail := "\\u" + (low + rest);
    ReadHex4Exact(high, tail);
    assert tail[2..] == low + rest;
    ReadHex4Exact(low, rest);
    if LowSurrogate(HexOf(low)) {
      CombineInvertsUnits(c, HexOf(high), HexOf(low));
    }
  }
}
