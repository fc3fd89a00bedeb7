/** The canonical form of RFC 8785 as a property of texts, and that the printer's text alone has it. */
module CanonicalForms {
  import opened Results
  import opened Decimals
  import opened Numbers
  import opened NumberReader
  import opened Ecma
  import opened Strings
  import opened Escapes
  import opened Values
  import opened CanonicalTrees
  import opened Printer
  import opened Grammar
  import opened Reading
  import opened Soundness
  import opened RoundTrip

  // ---- The form -------------------------------------------------------------------------

  /** No spelling of the same scalar is shorter, and hexadecimal digits are lowercase. */
  ghost predicate MinimalItem(i: StringItem) {
    && ValidItem(i) && LowercaseHex(i)
    && forall j :: ValidItem(j) && ItemChar(j) == ItemChar(i) ==> |ItemText(i)| <= |ItemText(j)|
  }

  ghost predicate MinimalItems(items: seq<StringItem>) {
    forall i | 0 <= i < |items| :: MinimalItem(items[i])
  }

  /** The ECMAScript form of the double that is read: `0` for zero, else its exact value. */
  ghost predicate ExactToken(floats: Floats, t: NumberToken)
    requires ValidToken(t) && AcceptNumber(floats, t).Ok?
  {
    var x := AcceptNumber(floats, t).value;
    if x.Zero? then TokenText(t) == "0"
    else EcmaShape(t) && t.minus == x.neg && TokenValue(t) == Magnitude(x)
  }

  /**
   The form of sections 3.2.1 to 3.2.3 of RFC 8785: no whitespace between tokens, numbers in the
   ECMAScript form, strings escaped no more than needed, members ascending by UTF-16 code units.
   */
  ghost predicate Canonical(floats: Floats, t: Tree)
    requires ValidTree(floats, t)
  {
    match t
    case NumberTree(token) => ExactToken(floats, token)
    case StringTree(chars) => MinimalItems(chars)
    case EmptyArray(blank) => blank == ""
    case ArrayTree(elements) => CanonicalElements(floats, elements)
    case EmptyObject(blank) => blank == ""
    case ObjectTree(entries) => CanonicalEntries(floats, entries) && NamesClimb(EntriesMeaning(floats, entries))
    case _ => true
  }

  ghost predicate CanonicalElements(floats: Floats, es: seq<Element>)
    requires ValidElements(floats, es)
  {
    es != [] ==>
      && es[0].before == "" && es[0].after == "" && Canonical(floats, es[0].value)
      && CanonicalElements(floats, es[1..])
  }

  ghost predicate CanonicalEntries(floats: Floats, es: seq<Entry>)
    requires ValidEntries(floats, es)
  {
    es != [] ==>
      && es[0].before == "" && es[0].beforeColon == "" && es[0].afterColon == "" && es[0].after == ""
      && MinimalItems(es[0].name) && Canonical(floats, es[0].value)
      && CanonicalEntries(floats, es[1..])
  }

  // ---- Strings and numbers have one spelling in the form --------------------------------

  lemma {:induction false} ItemLength(i: StringItem)
    requires ValidItem(i)
    ensures |ItemText(i)| == match i case Raw(_) => 1 case Short(_) => 2 case Code(_) => 6 case Pair(_, _) => 12
  {
  }

  lemma {:induction false} CodeText(hex: string)
    requires IsHex4(hex)
    ensures ("\\u" + hex)[2..] == hex
  {
  }

  lemma {:induction false} PairText(high: string, low: string)
    requires IsHex4(high) && IsHex4(low)
    ensures var s := ItemText(Pair(high, low)); |s| == 12 && s[2..6] == high && s[8..] == low
  {
  }

  lemma {:induction false} ItemTextInjective(i: StringItem, j: StringItem)
    requires ValidItem(i) && ValidItem(j) && ItemText(i) == ItemText(j)
    ensures i == j
  {
    ItemLength(i);
    ItemLength(j);
    match i
    case Raw(c) => assert ItemText(j)[0] == c;
    case Short(letter) => assert ItemText(j)[1] == letter;
    case Code(hex) =>
      CodeText(hex);
      CodeText(j.hex);
    case Pair(high, low) =>
      PairText(high, low);
      PairText(j.high, j.low);
  }

  lemma {:induction false} MinimalIsPrinted(i: StringItem)
    requires MinimalItem(i)
    ensures i == PrintedItem(ItemChar(i))
  {
    var c := ItemChar(i);
    PrintedItemMeans(c);
    PrintedSpelling(c);
    ShortestSpelling(c, i);
    ItemTextInjective(i, PrintedItem(c));
  }

  lemma {:induction false} PrintedIsMinimal(c: char)
    ensures MinimalItem(PrintedItem(c)) && ItemChar(PrintedItem(c)) == c
  {
    PrintedItemMeans(c);
    PrintedSpelling(c);
    ShortestSpelling(c, PrintedItem(c));
    forall j | ValidItem(j) && ItemChar(j) == c
      ensures |ItemText(PrintedItem(c))| <= |ItemText(j)|
    {
      ShortestSpelling(c, j);
    }
  }

  lemma {:induction false} MinimalItemsArePrinted(items: seq<StringItem>)
    requires ValidItems(items) && MinimalItems(items)
    ensures items == PrintedItems(ItemsChars(items))
  {
    if items != [] {
      MinimalIsPrinted(items[0]);
      MinimalItemsArePrinted(items[1..]);
      assert ItemsChars(items)[1..] == ItemsChars(items[1..]);
      assert items == [items[0]] + items[1..];
    }
  }

  lemma {:induction false} PrintedItemsAreMinimal(s: string)
    ensures MinimalItems(PrintedItems(s))
  {
    if s != [] {
      PrintedIsMinimal(s[0]);
      PrintedItemsAreMinimal(s[1..]);
    }
  }

  lemma {:induction false} ExactIsPrinted(floats: Floats, t: NumberToken)
    requires ValidToken(t) && AcceptNumber(floats, t).Ok? && ExactToken(floats, t)
    ensures var x := AcceptNumber(floats, t).value; x.IsFinite() && x != Zero(true) && t == TokenOf(x)
  {
    var x := AcceptNumber(floats, t).value;
    if x.Zero? {
      OnlyZeroText(t);
      assert "0" + "" == "0" && NatOf("0") == 0;
      ScaledZero(0);
    } else {
      EcmaFormUnique(x, t);
    }
  }

  lemma {:induction false} OnlyZeroText(t: NumberToken)
    requires ValidToken(t) && TokenText(t) == "0"
    ensures t == NumberToken(false, "0", None, None)
  {
    assert |TokenText(t)| == 1;
  }

  lemma {:induction false} PrintedIsExact(floats: Floats, x: F64)
    requires x.IsFinite() && floats.IsDouble(x) && x != Zero(true)
    ensures ValidToken(TokenOf(x)) && AcceptNumber(floats, TokenOf(x)) == Ok(x)
    ensures ExactToken(floats, TokenOf(x))
  {
    NumberTextDenotes(x);
    PrintedTokenAccepted(floats, x);
    if x.Finite? {
      EcmaFormUnique(x, TokenOf(x));
    }
  }

  // ---- So have values -------------------------------------------------------------------

  /** A derivation in the form is the one the printer writes for the tree it stands for. */
  lemma {:induction false} CanonicalIsPrinted(floats: Floats, t: Tree)
    requires ValidTree(floats, t) && Canonical(floats, t)
    ensures var v := Meaning(floats, t);
            InDomain(v) && Ordered(v) && NoNegativeZero(v) && t == PrintedTree(v)
  {
    match t
    case NumberTree(token) => ExactIsPrinted(floats, token);
    case StringTree(chars) => MinimalItemsArePrinted(chars);
    case ArrayTree(elements) => CanonicalElementsPrinted(floats, elements);
    case ObjectTree(entries) =>
      CanonicalEntriesPrinted(floats, entries);
      NamesClimbIff(EntriesMeaning(floats, entries));
    case _ =>
  }

  ghost predicate InOrder(v: JcsValue) {
    InDomain(v) && Ordered(v) && NoNegativeZero(v)
  }

  lemma {:induction false} CanonicalElementsPrinted(floats: Floats, es: seq<Element>)
    requires ValidElements(floats, es) && CanonicalElements(floats, es)
    ensures var items := ElementsMeaning(floats, es);
            && |items| == |es|
            && (forall i | 0 <= i < |items| :: InOrder(items[i]))
            && ItemsInDomain(items) && es == PrintedElements(items)
  {
    if es != [] {
      CanonicalIsPrinted(floats, es[0].value);
      CanonicalElementsPrinted(floats, es[1..]);
      var items := ElementsMeaning(floats, es);
      assert items[1..] == ElementsMeaning(floats, es[1..]);
      assert es == [es[0]] + es[1..];
    }
  }

  lemma {:induction false} CanonicalEntriesPrinted(floats: Floats, es: seq<Entry>)
    requires ValidEntries(floats, es) && CanonicalEntries(floats, es)
    ensures var members := EntriesMeaning(floats, es);
            && |members| == |es|
            && (forall i | 0 <= i < |members| :: InOrder(members[i].value))
            && MembersInDomain(members) && es == PrintedEntries(members)
  {
    if es != [] {
      CanonicalIsPrinted(floats, es[0].value);
      MinimalItemsArePrinted(es[0].name);
      CanonicalEntriesPrinted(floats, es[1..]);
      var members := EntriesMeaning(floats, es);
      assert members[1..] == EntriesMeaning(floats, es[1..]);
      assert es == [es[0]] + es[1..];
    }
  }

  lemma {:induction false} PrintedIsCanonical(floats: Floats, v: JcsValue)
    requires Faithful(floats, v) && Ordered(v)
    ensures ValidTree(floats, PrintedTree(v)) && Canonical(floats, PrintedTree(v))
  {
    PrintedTreeMeans(floats, v);
    match v
    case Number(x) => PrintedIsExact(floats, x);
    case String(s) => PrintedItemsAreMinimal(s);
    case Array(items) => PrintedElementsCanonical(floats, items);
    case Object(members) => PrintedEntriesCanonical(floats, members);
    case _ =>
  }

  lemma {:induction false} PrintedElementsCanonical(floats: Floats, items: seq<JcsValue>)
    requires ItemsInDomain(items)
    requires forall i | 0 <= i < |items| :: Faithful(floats, items[i]) && Ordered(items[i])
    ensures ValidElements(floats, PrintedElements(items))
    ensures CanonicalElements(floats, PrintedElements(items))
  {
    PrintedElementsMean(floats, items);
    if items != [] {
      PrintedIsCanonical(floats, items[0]);
      PrintedElementsCanonical(floats, items[1..]);
      assert PrintedElements(items)[1..] == PrintedElements(items[1..]);
    }
  }

  lemma {:induction false} PrintedEntriesCanonical(floats: Floats, members: seq<Member>)
    requires MembersInDomain(members)
    requires forall i | 0 <= i < |members| :: Faithful(floats, members[i].value) && Ordered(members[i].value)
    ensures ValidEntries(floats, PrintedEntries(members))
    ensures CanonicalEntries(floats, PrintedEntries(members))
    ensures EntriesMeaning(floats, PrintedEntries(members)) == members
  {
    PrintedEntriesMean(floats, members);
    if members != [] {
      PrintedItemsAreMinimal(members[0].name);
      PrintedIsCanonical(floats, members[0].value);
      PrintedEntriesCanonical(floats, members[1..]);
      assert PrintedEntries(members)[1..] == PrintedEntries(members[1..]);
    }
  }

  /** The text spells a value meaning the same as `v`, in the canonical form. */
  ghost predicate CanonicallySpells(floats: Floats, text: string, v: JcsValue) {
    exists t ::
      && ValidTree(floats, t) && TreeText(t) == text
      && Canonical(floats, t) && SameMeaning(v, Meaning(floats, t))
  }

  /**
   What the printer writes for a value is the one and only text in the canonical form of RFC 8785
   that means the same.
   */
  lemma {:induction false} CanonicalTextIs(floats: Floats, v: JcsValue, text: string)
    requires Printable(v) && AllDoubles(floats, v)
    ensures text == CanonicalText(v) <==> CanonicallySpells(floats, text, v)
  {
    CanonicalTreeIs(v, Canon(v));
    if text == CanonicalText(v) {
      FitsIffNesting(v, 0);
      CanonicalDerivation(floats, v, 0);
      CanonAllDoubles(floats, v);
      PrintedIsCanonical(floats, Canon(v));
      assert CanonicallySpells(floats, text, v);
    }
    if CanonicallySpells(floats, text, v) {
      var t :| ValidTree(floats, t) && TreeText(t) == text
               && Canonical(floats, t) && SameMeaning(v, Meaning(floats, t));
      CanonicalIsPrinted(floats, t);
      CanonicalTreeIs(v, Meaning(floats, t));
      PrintedTreeText(Canon(v));
    }
  }

  /**
   All of `canonicalize`, without its algorithm: it returns the text in canonical form of what the
   input derives in the grammar, if that repeats no member name and nests at most 128 containers.
   */
  lemma {:induction false} CanonicalizeIs(floats: Floats, text: string, out: string)
    ensures Canonicalize(floats, text) == Ok(out)
       <==> exists v :: Derives(floats, text, v) && InDomain(v) && Nesting(v) <= 128
                        && CanonicallySpells(floats, out, v)
    ensures Canonicalize(floats, text).Err? ==> Canonicalize(floats, text) == Err(Canonicalization)
  {
    if Canonicalize(floats, text).Ok? {
      var v := Parsed(floats, text).value;
      ParsedIffDerives(floats, text, v);
      ParsedIsPrintable(floats, text);
      CanonicalTextIs(floats, v, out);
    }
    if v :| Derives(floats, text, v) && InDomain(v) && Nesting(v) <= 128 && CanonicallySpells(floats, out, v) {
      ParsedIffDerives(floats, text, v);
      ParsedIsPrintable(floats, text);
      CanonicalTextIs(floats, v, out);
    }
  }
}
