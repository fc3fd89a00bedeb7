/**
 The parser undoes the printer, and what follows from it: canonical text is a unique name for
 meaning, canonicalizing twice changes nothing, and only the meaning of a text matters.
 */
module RoundTrip {
  import opened Results
  import opened Sequences
  import opened Decimals
  import opened Numbers
  import opened NumberReader
  import opened Ecma
  import opened Strings
  import opened Values
  import opened CanonicalTrees
  import opened Printer
  import opened Grammar
  import opened Reading
  import opened Completeness
  import opened Soundness

  // ---- The derivation the printer writes ------------------------------------------------

  function PrintedTree(v: JcsValue): Tree
    requires InDomain(v)
  {
    match v
    case Null => NullTree
    case Bool(b) => BoolTree(b)
    case Number(x) => NumberTree(TokenOf(x))
    case String(s) => StringTree(PrintedItems(s))
    case Array(items) => if items == [] then EmptyArray("") else ArrayTree(PrintedElements(items))
    case Object(members) => if members == [] then EmptyObject("") else ObjectTree(PrintedEntries(members))
  }

  predicate ItemsInDomain(items: seq<JcsValue>) {
    forall i | 0 <= i < |items| :: InDomain(items[i])
  }

  predicate MembersInDomain(members: seq<Member>) {
    forall i | 0 <= i < |members| :: InDomain(members[i].value)
  }

  function PrintedElements(items: seq<JcsValue>): seq<Element>
    requires ItemsInDomain(items)
  {
    if items == [] then [] else [Element("", PrintedTree(items[0]), "")] + PrintedElements(items[1..])
  }

  function PrintedEntry(m: Member): Entry
    requires InDomain(m.value)
  {
    Entry("", PrintedItems(m.name), "", "", PrintedTree(m.value), "")
  }

  function PrintedEntries(members: seq<Member>): seq<Entry>
    requires MembersInDomain(members)
  {
    if members == [] then [] else [PrintedEntry(members[0])] + PrintedEntries(members[1..])
  }

  lemma {:induction false} EmptyLeft(s: string)
    ensures "" + s == s
  {
  }

  lemma {:induction false} PrintedTreeText(v: JcsValue)
    requires InDomain(v)
    ensures TreeText(PrintedTree(v)) == Plain(v)
    decreases v, 1
  {
    match v
    case Number(x) => TokenOfText(x);
    case String(s) => PrintedItemsMean(s);
    case Array(items) => PrintedContainerText(v);
    case Object(members) => PrintedContainerText(v);
    case _ =>
  }

  lemma {:induction false} PrintedContainerText(v: JcsValue)
    requires InDomain(v) && (v.Array? || v.Object?)
    ensures TreeText(PrintedTree(v)) == Plain(v)
    decreases v, 0
  {
    if v.Array? {
      if v.items != [] {
        PrintedElementsText(v.items);
      }
    } else if v.members != [] {
      PrintedEntriesText(v.members);
    }
  }

  lemma {:induction false} PrintedElementsText(items: seq<JcsValue>)
    requires ItemsInDomain(items)
    ensures items != [] ==> ElementsText(PrintedElements(items)) == ItemsPlain(items, true) + "]"
    ensures ElementsEnd(PrintedElements(items)) == ItemsPlain(items, false) + "]"
    decreases items
  {
    if items != [] {
      var es := PrintedElements(items);
      var head, tail := Plain(items[0]), ItemsPlain(items[1..], false);
      PrintedTreeText(items[0]);
      PrintedElementsText(items[1..]);
      assert es[1..] == PrintedElements(items[1..]);
      assert ElementsText(es) == "" + (head + ("" + (tail + "]")));
      EmptyLeft(tail + "]");
      EmptyLeft(head + (tail + "]"));
      EmptyLeft(head + tail);
      ConcatAssoc(head, tail, "]");
      ConcatAssoc(",", head + tail, "]");
    }
  }

  lemma {:induction false} PrintedEntriesText(members: seq<Member>)
    requires MembersInDomain(members)
    ensures members != [] ==> EntriesText(PrintedEntries(members)) == MembersPlain(members, true) + "}"
    ensures EntriesEnd(PrintedEntries(members)) == MembersPlain(members, false) + "}"
    decreases members
  {
    if members != [] {
      var es, m := PrintedEntries(members), members[0];
      var head, tail := MemberPlain(m), MembersPlain(members[1..], false);
      PrintedEntriesText(members[1..]);
      assert es[1..] == PrintedEntries(members[1..]);
      PrintedEntryText(m, tail + "}");
      assert EntriesText(es) == head + (tail + "}");
      EmptyLeft(head + tail);
      ConcatAssoc(head, tail, "}");
      ConcatAssoc(",", head + tail, "}");
    }
  }

  lemma {:induction false} PrintedEntryText(m: Member, end: string)
    requires InDomain(m.value)
    ensures var e := PrintedEntry(m);
            e.before + (QuotedText(e.name) + AfterName(e, end))
            == MemberPlain(m) + end
    decreases m, 1
  {
    var name, value := StringText(m.name), Plain(m.value);
    PrintedItemsMean(m.name);
    PrintedTreeText(m.value);
    EmptyLeft(end);
    EmptyLeft(value + end);
    EmptyLeft(":" + (value + end));
    EmptyLeft(name + (":" + (value + end)));
    ConcatAssoc(":", value, end);
    ConcatAssoc(name, ":" + value, end);
  }

  // ---- What that derivation means -------------------------------------------------------

  ghost predicate Faithful(floats: Floats, v: JcsValue) {
    InDomain(v) && AllDoubles(floats, v) && NoNegativeZero(v)
  }

  lemma {:induction false} PrintedTreeMeans(floats: Floats, v: JcsValue)
    requires Faithful(floats, v)
    ensures ValidTree(floats, PrintedTree(v))
    ensures Meaning(floats, PrintedTree(v)) == v
  {
    match v
    case Number(x) => PrintedTokenAccepted(floats, x);
    case String(s) => PrintedItemsMean(s);
    case Array(items) => PrintedElementsMean(floats, items);
    case Object(members) => PrintedEntriesMean(floats, members);
    case _ =>
  }

  lemma {:induction false} PrintedElementsMean(floats: Floats, items: seq<JcsValue>)
    requires ItemsInDomain(items)
    requires forall i | 0 <= i < |items| :: Faithful(floats, items[i])
    ensures ValidElements(floats, PrintedElements(items))
    ensures ElementsMeaning(floats, PrintedElements(items)) == items
  {
    if items != [] {
      PrintedTreeMeans(floats, items[0]);
      PrintedElementsMean(floats, items[1..]);
      assert PrintedElements(items)[1..] == PrintedElements(items[1..]);
    }
  }

  lemma {:induction false} PrintedEntriesMean(floats: Floats, members: seq<Member>)
    requires MembersInDomain(members)
    requires forall i | 0 <= i < |members| :: Faithful(floats, members[i].value)
    ensures ValidEntries(floats, PrintedEntries(members))
    ensures EntriesMeaning(floats, PrintedEntries(members)) == members
  {
    if members != [] {
      PrintedItemsMean(members[0].name);
      PrintedTreeMeans(floats, members[0].value);
      PrintedEntriesMean(floats, members[1..]);
      assert PrintedEntries(members)[1..] == PrintedEntries(members[1..]);
    }
  }

  // ---- Round trip -----------------------------------------------------------------------

  lemma {:induction false} CanonicalDerivation(floats: Floats, v: JcsValue, depth: nat)
    requires InDomain(v) && Fits(v, depth) && AllDoubles(floats, v)
    ensures InDomain(Canon(v)) && Acceptable(Canon(v), depth)
    ensures TreeText(PrintedTree(Canon(v))) == CanonicalText(v)
    ensures ValidTree(floats, PrintedTree(Canon(v)))
    ensures Meaning(floats, PrintedTree(Canon(v))) == Canon(v)
  {
    CanonInDomain(v);
    CanonFits(v, depth);
    CanonAllDoubles(floats, v);
    CanonNoNegativeZero(v);
    PrintedTreeText(Canon(v));
    PrintedTreeMeans(floats, Canon(v));
  }

  /**
   Parsing canonical text, followed by anything that can follow a value, gives the canonical tree
   and stops exactly behind the text.
   */
  lemma {:induction false} CanonicalTextIsRead(floats: Floats, v: JcsValue, depth: nat, rest: string)
    requires InDomain(v) && Fits(v, depth) && AllDoubles(floats, v) && Delimited(rest)
    ensures ReadValue(floats, CanonicalText(v) + rest, depth) == Ok((Canon(v), rest))
  {
    CanonicalDerivation(floats, v, depth);
    var t := PrintedTree(Canon(v));
    if t.NumberTree? {
      DelimiterStops(t.token, rest);
    }
    ReadValueComplete(floats, t, depth, rest);
  }

  /** The whole text of a printable tree parses back to its canonical tree. */
  lemma {:induction false} CanonicalTextParses(floats: Floats, v: JcsValue)
    requires Printable(v) && AllDoubles(floats, v)
    ensures Parsed(floats, CanonicalText(v)) == Ok(Canon(v))
  {
    FitsIffNesting(v, 0);
    CanonicalDerivation(floats, v, 0);
    TextIsParsed(floats, "", PrintedTree(Canon(v)), "");
    assert "" + (CanonicalText(v) + "") == CanonicalText(v);
  }

  // ---- Injectivity ----------------------------------------------------------------------

  /** The float model that rounds nothing it need not round: every decimal is read as itself. */
  ghost function ExactRound(neg: bool, x: real): F64 {
    if exists d: F64 :: d.Finite? && d.neg == neg && Magnitude(d) == x then
      var d: F64 :| d.Finite? && d.neg == neg && Magnitude(d) == x;
      d
    else Zero(neg)
  }

  ghost function ExactFloats(): Floats {
    var m := FloatModel((neg, x) => ExactRound(neg, x));
    assert m.Valid() by {
      forall neg
        ensures m.round(neg, 0.0) == Zero(neg)
      {
        forall d: F64 | d.Finite?
          ensures Magnitude(d) != 0.0
        {
          NonzeroMagnitude(d);
        }
      }
      forall d: F64 {
        ExactRoundReads(d);
      }
    }
    m
  }

  lemma {:induction false} NonzeroMagnitude(d: F64)
    requires d.Finite?
    ensures Magnitude(d) != 0.0
  {
    var e := d.exp + 1 - |d.digits|;
    NatOfPositive(d.digits);
    ScaledZero(e);
    ScaledOrder(0, NatOf(d.digits), e);
  }

  lemma {:induction false} ExactRoundReads(d: F64)
    ensures d.Finite? ==> ExactRound(d.neg, Magnitude(d)) == d
  {
    if d.Finite? {
      var x := ExactRound(d.neg, Magnitude(d));
      assert x.Finite? && x.neg == d.neg && Magnitude(x) == Magnitude(d);
      MagnitudeUnique(x, d);
    }
  }

  lemma {:induction false} AllExact(v: JcsValue)
    ensures AllDoubles(ExactFloats(), v)
  {
    match v
    case Number(x) => ExactRoundReads(x);
    case Array(items) =>
      forall i | 0 <= i < |items| {
        AllExact(items[i]);
      }
    case Object(members) =>
      forall i | 0 <= i < |members| {
        AllExact(members[i].value);
      }
    case _ =>
  }

  /**
   Canonical text is a unique name for meaning: two printable trees have the same text exactly
   when they are equal up to the order of members, at every level, and the sign of zero. No
   assumption about rounding is needed.
   */
  lemma {:induction false} CanonicalTextNamesMeaning(a: JcsValue, b: JcsValue)
    requires Printable(a) && Printable(b)
    ensures CanonicalText(a) == CanonicalText(b) <==> SameMeaning(a, b)
  {
    SameMeaningIffSameCanon(a, b);
    if CanonicalText(a) == CanonicalText(b) {
      AllExact(a);
      AllExact(b);
      CanonicalTextParses(ExactFloats(), a);
      CanonicalTextParses(ExactFloats(), b);
    }
  }

  /** In particular, finite doubles other than the two zeros print differently. */
  lemma {:induction false} NumberTextInjective(x: F64, y: F64)
    requires x.IsFinite() && y.IsFinite()
    ensures NumberText(x) == NumberText(y) <==> PositiveZero(x) == PositiveZero(y)
  {
    CanonicalTextNamesMeaning(Number(x), Number(y));
  }

  // ---- Canonicalizing texts -------------------------------------------------------------

  /** `canonicalize` as a function: parse, then print. */
  function Canonicalize(floats: Floats, text: string): Result<string> {
    var v :- Parsed(floats, text);
    Canonicalized(v)
  }

  /** The parser's trees are within the domain and the bound of the printer. */
  lemma {:induction false} ParsedIsPrintable(floats: Floats, text: string)
    requires Parsed(floats, text).Ok?
    ensures Printable(Parsed(floats, text).value)
    ensures AllDoubles(floats, Parsed(floats, text).value)
  {
    var v := Parsed(floats, text).value;
    ParsedIffDerives(floats, text, v);
    var lead, t, trail :| IsBlank(lead) && IsBlank(trail) && ValidTree(floats, t)
                          && text == lead + (TreeText(t) + trail) && Meaning(floats, t) == v;
    MeaningAllDoubles(floats, t);
  }

  lemma {:induction false} MeaningAllDoubles(floats: Floats, t: Tree)
    requires ValidTree(floats, t)
    ensures AllDoubles(floats, Meaning(floats, t))
  {
    match t
    case ArrayTree(elements) => ElementsAllDoubles(floats, elements);
    case ObjectTree(entries) => EntriesAllDoubles(floats, entries);
    case _ =>
  }

  lemma {:induction false} ElementsAllDoubles(floats: Floats, es: seq<Element>)
    requires ValidElements(floats, es)
    ensures forall v | v in ElementsMeaning(floats, es) :: AllDoubles(floats, v)
  {
    if es != [] {
      MeaningAllDoubles(floats, es[0].value);
      ElementsAllDoubles(floats, es[1..]);
    }
  }

  lemma {:induction false} EntriesAllDoubles(floats: Floats, es: seq<Entry>)
    requires ValidEntries(floats, es)
    ensures forall m | m in EntriesMeaning(floats, es) :: AllDoubles(floats, m.value)
  {
    if es != [] {
      MeaningAllDoubles(floats, es[0].value);
      EntriesAllDoubles(floats, es[1..]);
    }
  }

  /** Canonicalizing fails only where parsing does, and the printer's own checks never fire. */
  lemma {:induction false} CanonicalizeFailsOnlyInParse(floats: Floats, text: string)
    ensures Canonicalize(floats, text).Ok? <==> Parsed(floats, text).Ok?
    ensures Parsed(floats, text).Ok? ==>
              Canonicalize(floats, text) == Ok(CanonicalText(Parsed(floats, text).value))
  {
    if Parsed(floats, text).Ok? {
      ParsedIsPrintable(floats, text);
    }
  }

  /** Canonical output is a fixed point. */
  lemma {:induction false} CanonicalizeIdempotent(floats: Floats, text: string)
    requires Canonicalize(floats, text).Ok?
    ensures Canonicalize(floats, Canonicalize(floats, text).value) == Canonicalize(floats, text)
  {
    var v := Parsed(floats, text).value;
    ParsedIsPrintable(floats, text);
    CanonicalTextParses(floats, v);
    CanonicalizeFailsOnlyInParse(floats, CanonicalText(v));
    CanonIdempotent(v);
  }

  /**
   Two accepted texts have the same canonical form exactly when their values mean the same:
   whitespace, member order, number spelling and the choice of escapes leave no trace.
   */
  lemma {:induction false} OnlyMeaningMatters(floats: Floats, a: string, b: string)
    requires Parsed(floats, a).Ok? && Parsed(floats, b).Ok?
    ensures Canonicalize(floats, a) == Canonicalize(floats, b)
       <==> SameMeaning(Parsed(floats, a).value, Parsed(floats, b).value)
  {
    ParsedIsPrintable(floats, a);
    ParsedIsPrintable(floats, b);
    CanonicalTextNamesMeaning(Parsed(floats, a).value, Parsed(floats, b).value);
  }

  /** Any other spelling of the same meaning is accepted along with the first, and canonicalizes alike. */
  lemma {:induction false} RespellingCanonicalizesAlike(floats: Floats, a: string, b: string, w: JcsValue)
    requires Parsed(floats, a).Ok?
    requires Derives(floats, b, w) && SameMeaning(Parsed(floats, a).value, w)
    ensures Canonicalize(floats, b).Ok? && Canonicalize(floats, b) == Canonicalize(floats, a)
  {
    var v := Parsed(floats, a).value;
    ParsedIffDerives(floats, a, v);
    SameMeaningKeeps(v, w, 0);
    FitsIffNesting(v, 0);
    FitsIffNesting(w, 0);
    ParsedIffDerives(floats, b, w);
    OnlyMeaningMatters(floats, a, b);
    CanonicalizeFailsOnlyInParse(floats, b);
  }
}
