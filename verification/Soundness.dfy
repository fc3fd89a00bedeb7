/** Whatever the parser reads is a text of the grammar, and its value is in the domain and fits. */
module Soundness {
  import opened Results
  import opened Sequences
  import opened Numbers
  import opened Strings
  import opened Values
  import opened Grammar
  import opened Reading
  import opened Completeness

  lemma {:induction false} SkipWsSound(s: string) returns (blank: string)
    ensures IsBlank(blank) && s == blank + SkipWs(s)
  {
    if s != [] && IsWs(s[0]) {
      blank := SkipWsSound(s[1..]);
      blank := [s[0]] + blank;
    } else {
      blank := "";
    }
  }

  lemma {:induction false} SkipWsTwice(s: string)
    ensures SkipWs(SkipWs(s)) == SkipWs(s)
  {
  }

  lemma {:induction false} ReadValueSound(floats: Floats, s: string, depth: nat) returns (t: Tree)
    requires ReadValue(floats, s, depth).Ok?
    ensures ValidTree(floats, t) && Meaning(floats, t) == ReadValue(floats, s, depth).value.0
    ensures s == TreeText(t) + ReadValue(floats, s, depth).value.1
    ensures Acceptable(Meaning(floats, t), depth)
    decreases |s|, 2
  {
    if s[0] == '[' {
      t := ReadArraySound(floats, s, depth + 1);
    } else if s[0] == '{' {
      t := ReadObjectSound(floats, s, depth + 1);
    } else {
      t := ReadLeafSound(floats, s, depth);
    }
  }

  lemma {:induction false} ReadLeafSound(floats: Floats, s: string, depth: nat) returns (t: Tree)
    requires ReadValue(floats, s, depth).Ok? && s[0] != '[' && s[0] != '{'
    ensures ValidTree(floats, t) && Meaning(floats, t) == ReadValue(floats, s, depth).value.0
    ensures s == TreeText(t) + ReadValue(floats, s, depth).value.1
    ensures Acceptable(Meaning(floats, t), depth)
  {
    if s[0] == '"' {
      var items := ReadStringSound(s);
      t := StringTree(items);
    } else if s[0] == 't' {
      t := BoolTree(true);
    } else if s[0] == 'f' {
      t := BoolTree(false);
    } else if s[0] == 'n' {
      t := NullTree;
    } else {
      ScanNumberSound(s);
      t := NumberTree(ScanNumber(s).value.0);
    }
  }

  /** Brackets with nothing but blanks between them. */
  lemma {:induction false} ReadEmptySound(s: string, open: string, close: string) returns (blank: string)
    requires |open| == 1 && |close| == 1
    requires s != [] && s[0] == open[0] && SkipWs(s[1..]) != [] && SkipWs(s[1..])[0] == close[0]
    ensures IsBlank(blank) && s == open + (blank + close) + SkipWs(s[1..])[1..]
  {
    var s1 := SkipWs(s[1..]);
    blank := SkipWsSound(s[1..]);
    assert s == open + s[1..] && s1 == close + s1[1..];
    ConcatAssoc(blank, close, s1[1..]);
    ConcatAssoc(open, blank + close, s1[1..]);
  }

  // ---- Arrays ---------------------------------------------------------------------------

  lemma {:induction false} ReadArraySound(floats: Floats, s: string, depth: nat) returns (t: Tree)
    requires ReadArray(floats, s, depth).Ok?
    ensures t.EmptyArray? || t.ArrayTree?
    ensures ValidTree(floats, t) && Meaning(floats, t) == ReadArray(floats, s, depth).value.0
    ensures s == TreeText(t) + ReadArray(floats, s, depth).value.1
    ensures AcceptableItems(Meaning(floats, t).items, depth)
    decreases |s|, 1
  {
    var s1 := SkipWs(s[1..]);
    if s1 != [] && s1[0] == ']' {
      var blank := ReadEmptySound(s, "[", "]");
      t := EmptyArray(blank);
    } else {
      SkipWsTwice(s[1..]);
      assert ReadItems(floats, s1, depth, []) == ReadItems(floats, s[1..], depth, []);
      var es := ReadItemsSound(floats, s[1..], depth, []);
      t := ArrayTree(es);
      assert [] + ElementsMeaning(floats, es) == ElementsMeaning(floats, es);
      ConcatAssoc("[", ElementsText(es), ReadArray(floats, s, depth).value.1);
    }
  }

  lemma {:induction false} ReadItemsSound(floats: Floats, s: string, depth: nat, items: seq<JcsValue>)
    returns (es: seq<Element>)
    requires ReadItems(floats, s, depth, items).Ok?
    ensures es != [] && ValidElements(floats, es)
    ensures ReadItems(floats, s, depth, items).value.0 == Array(items + ElementsMeaning(floats, es))
    ensures s == ElementsText(es) + ReadItems(floats, s, depth, items).value.1
    ensures AcceptableItems(ElementsMeaning(floats, es), depth)
    decreases |s|, 4
  {
    var e, v, end := ReadElementSound(floats, s, depth, items);
    var rest := ReadItems(floats, s, depth, items).value.1;
    var others: seq<Element> := [];
    if end[0] == ',' {
      others := ReadItemsSound(floats, end[1..], depth, items + [v]);
    }
    es := [e] + others;
    ConsElement(floats, e, others, rest);
    AcceptableItemsSplit(v, ElementsMeaning(floats, others), depth);
    ConcatAssoc(items, [v], ElementsMeaning(floats, others));
    ElementsEndSplit(others, rest);
    HeadAndTail(end, ElementsEnd(others) + rest);
  }

  /** The first element of an array's text, with the blanks as they were written. */
  lemma {:induction false} ReadElementSound(floats: Floats, s: string, depth: nat, items: seq<JcsValue>)
    returns (e: Element, v: JcsValue, end: string)
    requires ReadItems(floats, s, depth, items).Ok?
    ensures IsBlank(e.before) && ValidTree(floats, e.value) && IsBlank(e.after)
    ensures v == Meaning(floats, e.value) && Acceptable(v, depth)
    ensures s == e.before + (TreeText(e.value) + (e.after + end))
    ensures |end| < |s| && end != [] && (end[0] == ',' || end[0] == ']')
    ensures ReadItems(floats, s, depth, items)
         == if end[0] == ',' then ReadItems(floats, end[1..], depth, items + [v])
            else Ok((Array(items + [v]), end[1..]))
    decreases |s|, 3
  {
    var before := SkipWsSound(s);
    var t := ReadValueSound(floats, SkipWs(s), depth);
    var s1 := ReadValue(floats, SkipWs(s), depth).value.1;
    var after := SkipWsSound(s1);
    v, end := Meaning(floats, t), SkipWs(s1);
    e := Element(before, t, after);
  }

  lemma {:induction false} ConsElement(floats: Floats, e: Element, others: seq<Element>, rest: string)
    requires IsBlank(e.before) && ValidTree(floats, e.value) && IsBlank(e.after) && ValidElements(floats, others)
    ensures var es := [e] + others;
            && ValidElements(floats, es)
            && ElementsMeaning(floats, es) == [Meaning(floats, e.value)] + ElementsMeaning(floats, others)
            && ElementsText(es) + rest
               == e.before + (TreeText(e.value) + (e.after + (ElementsEnd(others) + rest)))
  {
    var es := [e] + others;
    assert es[0] == e && es[1..] == others;
    ElementsTextSplit(es, rest);
  }

  // ---- Objects --------------------------------------------------------------------------

  lemma {:induction false} ReadObjectSound(floats: Floats, s: string, depth: nat) returns (t: Tree)
    requires ReadObject(floats, s, depth).Ok?
    ensures t.EmptyObject? || t.ObjectTree?
    ensures ValidTree(floats, t) && Meaning(floats, t) == ReadObject(floats, s, depth).value.0
    ensures s == TreeText(t) + ReadObject(floats, s, depth).value.1
    ensures AcceptableMembers(Meaning(floats, t).members, depth)
    ensures DistinctNames(Meaning(floats, t).members)
    decreases |s|, 1
  {
    var s1 := SkipWs(s[1..]);
    if s1 != [] && s1[0] == '}' {
      var blank := ReadEmptySound(s, "{", "}");
      t := EmptyObject(blank);
    } else {
      SkipWsTwice(s[1..]);
      assert ReadMembers(floats, s1, depth, []) == ReadMembers(floats, s[1..], depth, []);
      var es := ReadMembersSound(floats, s[1..], depth, []);
      t := ObjectTree(es);
      assert [] + EntriesMeaning(floats, es) == EntriesMeaning(floats, es);
      ConcatAssoc("{", EntriesText(es), ReadObject(floats, s, depth).value.1);
    }
  }

  lemma {:induction false} FreshNameDistinct(members: seq<Member>, m: Member)
    requires DistinctNames(members) && m.name !in Names(members)
    ensures DistinctNames(members + [m])
  {
    assert forall i | 0 <= i < |members| :: members[i].name in Names(members);
  }

  /** The first member of an object's text, with the blanks and the name as they were written. */
  lemma {:induction false} ReadEntrySound(floats: Floats, s: string, depth: nat, members: seq<Member>)
    returns (e: Entry, v: JcsValue, end: string)
    requires ReadMembers(floats, s, depth, members).Ok?
    ensures IsBlank(e.before) && ValidItems(e.name) && IsBlank(e.beforeColon) && IsBlank(e.afterColon)
    ensures ValidTree(floats, e.value) && IsBlank(e.after)
    ensures v == Meaning(floats, e.value) && Acceptable(v, depth)
    ensures ItemsChars(e.name) !in Names(members)
    ensures s == e.before + (QuotedText(e.name) + AfterName(e, end))
    ensures |end| < |s| && end != [] && (end[0] == ',' || end[0] == '}')
    ensures ReadMembers(floats, s, depth, members)
         == if end[0] == ',' then
              ReadMembers(floats, end[1..], depth, members + [Member(ItemsChars(e.name), v)])
            else Ok((Object(members + [Member(ItemsChars(e.name), v)]), end[1..]))
    decreases |s|, 2
  {
    var before, name, beforeColon := ReadKeySound(s, Names(members));
    var s1 := ReadKey(s, Names(members)).value.1;
    var afterColon := SkipWsSound(s1);
    var t := ReadValueSound(floats, SkipWs(s1), depth);
    var s2 := ReadValue(floats, SkipWs(s1), depth).value.1;
    var after := SkipWsSound(s2);
    v, end := Meaning(floats, t), SkipWs(s2);
    e := Entry(before, name, beforeColon, afterColon, t, after);
  }

  lemma {:induction false} ReadKeySound(s: string, seen: set<string>)
    returns (before: string, name: seq<StringItem>, beforeColon: string)
    requires ReadKey(s, seen).Ok?
    ensures IsBlank(before) && ValidItems(name) && IsBlank(beforeColon)
    ensures ItemsChars(name) == ReadKey(s, seen).value.0 && ItemsChars(name) !in seen
    ensures s == before + (QuotedText(name) + (beforeColon + (":" + ReadKey(s, seen).value.1)))
  {
    before := SkipWsSound(s);
    name := ReadStringSound(SkipWs(s));
    var s1 := ReadString(SkipWs(s)).value.1;
    beforeColon := SkipWsSound(s1);
    var s2 := SkipWs(s1);
    assert s2 == ":" + s2[1..];
  }

  lemma {:induction false} ReadMembersSound(floats: Floats, s: string, depth: nat, members: seq<Member>)
    returns (es: seq<Entry>)
    requires ReadMembers(floats, s, depth, members).Ok? && DistinctNames(members)
    ensures es != [] && ValidEntries(floats, es)
    ensures ReadMembers(floats, s, depth, members).value.0 == Object(members + EntriesMeaning(floats, es))
    ensures s == EntriesText(es) + ReadMembers(floats, s, depth, members).value.1
    ensures AcceptableMembers(EntriesMeaning(floats, es), depth)
    ensures DistinctNames(members + EntriesMeaning(floats, es))
    decreases |s|, 3
  {
    var e, v, end := ReadEntrySound(floats, s, depth, members);
    var m := Member(ItemsChars(e.name), v);
    var rest := ReadMembers(floats, s, depth, members).value.1;
    FreshNameDistinct(members, m);
    var others: seq<Entry> := [];
    if end[0] == ',' {
      others := ReadMembersSound(floats, end[1..], depth, members + [m]);
    }
    es := [e] + others;
    ConsEntry(floats, e, others, rest);
    AcceptableMembersSplit(m, EntriesMeaning(floats, others), depth);
    ConcatAssoc(members, [m], EntriesMeaning(floats, others));
    assert others == [] ==> members + [m] + EntriesMeaning(floats, others) == members + [m];
    EntriesEndSplit(others, rest);
    HeadAndTail(end, EntriesEnd(others) + rest);
  }

  lemma {:induction false} ConsEntry(floats: Floats, e: Entry, others: seq<Entry>, rest: string)
    requires IsBlank(e.before) && ValidItems(e.name) && IsBlank(e.beforeColon) && IsBlank(e.afterColon)
    requires ValidTree(floats, e.value) && IsBlank(e.after) && ValidEntries(floats, others)
    ensures var es := [e] + others;
            && ValidEntries(floats, es)
            && EntriesMeaning(floats, es)
               == [Member(ItemsChars(e.name), Meaning(floats, e.value))] + EntriesMeaning(floats, others)
            && EntriesText(es) + rest
               == e.before + (QuotedText(e.name) + AfterName(e, EntriesEnd(others) + rest))
  {
    var es := [e] + others;
    assert es[0] == e && es[1..] == others;
    EntriesTextSplit(es, rest);
  }

  // ---- The parser and the grammar -------------------------------------------------------

  /**
   The parser succeeds with `v` exactly when the text derives `v` in the grammar, `v` repeats no
   member name and nests at most 128 containers.
   */
  lemma {:induction false} ParsedIffDerives(floats: Floats, text: string, v: JcsValue)
    ensures Parsed(floats, text) == Ok(v)
       <==> Derives(floats, text, v) && InDomain(v) && Nesting(v) <= 128
  {
    FitsIffNesting(v, 0);
    if Parsed(floats, text) == Ok(v) {
      ParsedDerives(floats, text);
    }
    if Derives(floats, text, v) && InDomain(v) && Nesting(v) <= MAX_DEPTH {
      var lead, t, trail :| IsBlank(lead) && IsBlank(trail) && ValidTree(floats, t)
                            && text == lead + (TreeText(t) + trail) && Meaning(floats, t) == v;
      TextIsParsed(floats, lead, t, trail);
    }
  }

  lemma {:induction false} ParsedDerives(floats: Floats, text: string)
    requires Parsed(floats, text).Ok?
    ensures Derives(floats, text, Parsed(floats, text).value)
    ensures Acceptable(Parsed(floats, text).value, 0)
  {
    var lead := SkipWsSound(text);
    var t := ReadValueSound(floats, SkipWs(text), 0);
    var rest := ReadValue(floats, SkipWs(text), 0).value.1;
    var trail := SkipWsSound(rest);
    assert trail + "" == trail;
    assert text == lead + (TreeText(t) + trail);
  }

  lemma {:induction false} TextIsParsed(floats: Floats, lead: string, t: Tree, trail: string)
    requires IsBlank(lead) && IsBlank(trail)
    requires ValidTree(floats, t) && Acceptable(Meaning(floats, t), 0)
    ensures Parsed(floats, lead + (TreeText(t) + trail)) == Ok(Meaning(floats, t))
  {
    TreeBegins(floats, t);
    SkipBlank(lead, TreeText(t) + trail);
    if t.NumberTree? {
      DelimiterStops(t.token, trail);
    }
    ReadValueComplete(floats, t, 0, trail);
    SkipBlank(trail, "");
    assert trail + "" == trail;
  }
}
