/** The parser reads every text of the grammar whose value is in the domain and fits. */
module Completeness {
  import opened Results
  import opened Sequences
  import opened Decimals
  import opened Numbers
  import opened NumberReader
  import opened Strings
  import opened Values
  import opened Grammar
  import opened Reading

  // ---- Blanks and delimiters ------------------------------------------------------------

  lemma {:induction false} SkipBlank(blank: string, rest: string)
    requires IsBlank(blank)
    requires rest != [] ==> !IsWs(rest[0])
    ensures SkipWs(blank + rest) == rest
  {
    if blank == [] {
      assert blank + rest == rest;
    } else {
      assert (blank + rest)[1..] == blank[1..] + rest;
      SkipBlank(blank[1..], rest);
    }
  }

  /** What can follow a value: nothing, whitespace, a comma or a closing bracket. */
  predicate Delimited(rest: string) {
    rest != [] ==> IsWs(rest[0]) || rest[0] == ',' || rest[0] == ']' || rest[0] == '}'
  }

  lemma {:induction false} DelimiterStops(t: NumberToken, rest: string)
    requires Delimited(rest)
    ensures Stops(t, rest)
  {
  }

  lemma {:induction false} BlankDelimits(blank: string, rest: string)
    requires IsBlank(blank) && Delimited(rest)
    ensures Delimited(blank + rest)
  {
    if blank != [] {
      assert (blank + rest)[0] == blank[0];
    } else {
      assert blank + rest == rest;
    }
  }

  /** How a value begins. */
  predicate BeginsValue(c: char) {
    c == '"' || c == '[' || c == '{' || c == 't' || c == 'f' || c == 'n' || c == '-' || IsDigit(c)
  }

  lemma {:induction false} TreeBegins(floats: Floats, t: Tree)
    requires ValidTree(floats, t)
    ensures TreeText(t) != [] && BeginsValue(TreeText(t)[0])
  {
    match t
    case NumberTree(token) =>
      if token.minus {
        assert TokenText(token)[0] == '-';
      } else {
        assert TokenText(token)[0] == token.whole[0];
      }
    case _ =>
  }

  // ---- Texts split at their parts -------------------------------------------------------

  lemma {:induction false} ElementsTextSplit(es: seq<Element>, rest: string)
    requires es != []
    ensures ElementsText(es) + rest
         == es[0].before + (TreeText(es[0].value) + (es[0].after + (ElementsEnd(es[1..]) + rest)))
  {
    var e, end := es[0], ElementsEnd(es[1..]);
    var value := TreeText(e.value);
    ConcatAssoc(e.after, end, rest);
    ConcatAssoc(value, e.after + end, rest);
    ConcatAssoc(e.before, value + (e.after + end), rest);
  }

  /** What stands behind a member's name, up to `end`. */
  function AfterName(e: Entry, end: string): string {
    e.beforeColon + (":" + (e.afterColon + (TreeText(e.value) + (e.after + end))))
  }

  lemma {:induction false} EntriesTextSplit(es: seq<Entry>, rest: string)
    requires es != []
    ensures EntriesText(es) + rest
         == es[0].before + (QuotedText(es[0].name) + AfterName(es[0], EntriesEnd(es[1..]) + rest))
  {
    var e, end := es[0], EntriesEnd(es[1..]);
    var p1 := e.after + end;
    var p2 := TreeText(e.value) + p1;
    var p3 := e.afterColon + p2;
    var p4 := ":" + p3;
    var p5 := e.beforeColon + p4;
    var p6 := QuotedText(e.name) + p5;
    ConcatAssoc(e.after, end, rest);
    ConcatAssoc(TreeText(e.value), p1, rest);
    ConcatAssoc(e.afterColon, p2, rest);
    ConcatAssoc(":", p3, rest);
    ConcatAssoc(e.beforeColon, p4, rest);
    ConcatAssoc(QuotedText(e.name), p5, rest);
    ConcatAssoc(e.before, p6, rest);
  }

  // ---- Values ---------------------------------------------------------------------------

  predicate AcceptableItems(items: seq<JcsValue>, depth: nat) {
    forall i | 0 <= i < |items| :: Acceptable(items[i], depth)
  }

  lemma {:induction false} AcceptableItemsSplit(v: JcsValue, others: seq<JcsValue>, depth: nat)
    ensures AcceptableItems([v] + others, depth) <==> Acceptable(v, depth) && AcceptableItems(others, depth)
  {
    var all := [v] + others;
    assert all[0] == v && forall i | 0 <= i < |others| :: others[i] == all[i + 1];
  }

  lemma {:induction false} AcceptableMembersSplit(m: Member, others: seq<Member>, depth: nat)
    ensures AcceptableMembers([m] + others, depth)
       <==> Acceptable(m.value, depth) && AcceptableMembers(others, depth)
  {
    var all := [m] + others;
    assert all[0] == m && forall i | 0 <= i < |others| :: others[i] == all[i + 1];
  }

  /** Whatever follows, the parser reads a derivation's value and stops exactly behind its text. */
  lemma {:induction false} ReadValueComplete(floats: Floats, t: Tree, depth: nat, rest: string)
    requires ValidTree(floats, t) && Acceptable(Meaning(floats, t), depth)
    requires t.NumberTree? ==> Stops(t.token, rest)
    ensures ReadValue(floats, TreeText(t) + rest, depth) == Ok((Meaning(floats, t), rest))
    decreases t, 1
  {
    match t
    case ArrayTree(elements) =>
      ReadArrayComplete(floats, elements, depth + 1, rest);
    case ObjectTree(entries) =>
      ReadObjectComplete(floats, entries, depth + 1, rest);
    case _ => ReadLeafComplete(floats, t, depth, rest);
  }

  lemma {:induction false} ReadLeafComplete(floats: Floats, t: Tree, depth: nat, rest: string)
    requires ValidTree(floats, t) && Acceptable(Meaning(floats, t), depth)
    requires !t.ArrayTree? && !t.ObjectTree?
    requires t.NumberTree? ==> Stops(t.token, rest)
    ensures ReadValue(floats, TreeText(t) + rest, depth) == Ok((Meaning(floats, t), rest))
  {
    match t
    case NumberTree(token) =>
      ReadNumberComplete(floats, token, depth, rest);
    case StringTree(chars) =>
      ReadStringComplete(chars, rest);
    case EmptyArray(blank) => ReadEmptyComplete(floats, t, depth, rest);
    case EmptyObject(blank) => ReadEmptyComplete(floats, t, depth, rest);
    case _ => ReadLiteralComplete(floats, t, depth, rest);
  }

  lemma {:induction false} ReadLiteralComplete(floats: Floats, t: Tree, depth: nat, rest: string)
    requires t.NullTree? || t.BoolTree?
    ensures ReadValue(floats, TreeText(t) + rest, depth) == Ok((Meaning(floats, t), rest))
  {
    var s := TreeText(t) + rest;
    assert s[|TreeText(t)|..] == rest;
  }

  lemma {:induction false} ReadNumberComplete(floats: Floats, token: NumberToken, depth: nat, rest: string)
    requires ValidToken(token) && AcceptNumber(floats, token).Ok? && Stops(token, rest)
    ensures ReadValue(floats, TokenText(token) + rest, depth)
         == Ok((Number(AcceptNumber(floats, token).value), rest))
  {
    var s := TokenText(token) + rest;
    NumberBegins(token);
    ReadTokenComplete(floats, token, rest);
    assert s[0] == TokenText(token)[0];
    NumberDispatch(floats, s, depth);
  }

  lemma {:induction false} NumberDispatch(floats: Floats, s: string, depth: nat)
    requires s != [] && (s[0] == '-' || IsDigit(s[0])) && ReadNumber(floats, s).Ok?
    ensures ReadValue(floats, s, depth)
         == Ok((Number(ReadNumber(floats, s).value.0), ReadNumber(floats, s).value.1))
  {
    var c := s[0];
    assert c != '{' && c != '[' && c != '"' && c != 't' && c != 'f' && c != 'n';
  }

  lemma {:induction false} ReadEmptyComplete(floats: Floats, t: Tree, depth: nat, rest: string)
    requires ValidTree(floats, t) && Acceptable(Meaning(floats, t), depth)
    requires t.EmptyArray? || t.EmptyObject?
    ensures ReadValue(floats, TreeText(t) + rest, depth) == Ok((Meaning(floats, t), rest))
  {
    var open, close := if t.EmptyArray? then "[" else "{", if t.EmptyArray? then "]" else "}";
    var s := TreeText(t) + rest;
    ConcatAssoc(t.blank, close, rest);
    ConcatAssoc(open, t.blank + close, rest);
    assert s == open + (t.blank + (close + rest));
    assert s[1..] == t.blank + (close + rest);
    SkipBlank(t.blank, close + rest);
    assert (close + rest)[1..] == rest;
  }

  lemma {:induction false} NumberBegins(t: NumberToken)
    requires ValidToken(t)
    ensures TokenText(t) != [] && (TokenText(t)[0] == '-' || IsDigit(TokenText(t)[0]))
  {
  }

  /** One element of an array: what the loop does once it has read the value `v` at `body`. */
  lemma {:induction false} ReadItemsStep(
    floats: Floats, before: string, body: string, v: JcsValue, after: string, end: string, depth: nat,
    items: seq<JcsValue>)
    requires IsBlank(before) && body != [] && !IsWs(body[0])
    requires IsBlank(after) && end != [] && !IsWs(end[0])
    requires ReadValue(floats, body, depth) == Ok((v, after + end))
    ensures ReadItems(floats, before + body, depth, items)
         == if end[0] == ',' then ReadItems(floats, end[1..], depth, items + [v])
            else if end[0] == ']' then Ok((Array(items + [v]), end[1..]))
            else CanonFail()
  {
    SkipBlank(before, body);
    SkipBlank(after, end);
  }

  /** An opening bracket with an element behind it. */
  lemma {:induction false} ReadArrayOpens(floats: Floats, before: string, body: string, depth: nat)
    requires IsBlank(before) && body != [] && !IsWs(body[0]) && body[0] != ']'
    ensures ReadArray(floats, "[" + (before + body), depth) == ReadItems(floats, before + body, depth, [])
  {
    assert ("[" + (before + body))[1..] == before + body;
    SkipBlank(before, body);
  }

  lemma {:induction false} ReadArrayComplete(floats: Floats, es: seq<Element>, depth: nat, rest: string)
    requires es != [] && ValidElements(floats, es)
    requires AcceptableItems(ElementsMeaning(floats, es), depth)
    ensures ReadArray(floats, "[" + ElementsText(es) + rest, depth) == Ok((Array(ElementsMeaning(floats, es)), rest))
    decreases es, 3
  {
    ConcatAssoc("[", ElementsText(es), rest);
    ElementsTextSplit(es, rest);
    TreeBegins(floats, es[0].value);
    ReadArrayOpens(
      floats, es[0].before, TreeText(es[0].value) + (es[0].after + (ElementsEnd(es[1..]) + rest)), depth);
    ReadItemsComplete(floats, es, depth, [], rest);
    assert [] + ElementsMeaning(floats, es) == ElementsMeaning(floats, es);
  }

  lemma {:induction false} ElementsEndSplit(es: seq<Element>, rest: string)
    ensures var end := ElementsEnd(es) + rest;
            && end != [] && !IsWs(end[0]) && Delimited(end)
            && (es == [] ==> end[0] == ']' && end[1..] == rest)
            && (es != [] ==> end[0] == ',' && end[1..] == ElementsText(es) + rest)
  {
    if es != [] {
      ConcatAssoc(",", ElementsText(es), rest);
    }
  }

  /** The first of some elements, the value in it being read. */
  lemma {:induction false} ReadFirstElement(
    floats: Floats, es: seq<Element>, depth: nat, items: seq<JcsValue>, v: JcsValue, rest: string)
    requires es != [] && ValidElements(floats, es)
    requires ReadValue(floats, TreeText(es[0].value) + (es[0].after + (ElementsEnd(es[1..]) + rest)), depth)
          == Ok((v, es[0].after + (ElementsEnd(es[1..]) + rest)))
    ensures ReadItems(floats, ElementsText(es) + rest, depth, items)
         == if es[1..] == [] then Ok((Array(items + [v]), rest))
            else ReadItems(floats, ElementsText(es[1..]) + rest, depth, items + [v])
  {
    var e, end := es[0], ElementsEnd(es[1..]) + rest;
    ElementsEndSplit(es[1..], rest);
    ElementsTextSplit(es, rest);
    TreeBegins(floats, e.value);
    ReadItemsStep(floats, e.before, TreeText(e.value) + (e.after + end), v, e.after, end, depth, items);
  }

  lemma {:induction false} ReadItemsComplete(
    floats: Floats, es: seq<Element>, depth: nat, items: seq<JcsValue>, rest: string)
    requires es != [] && ValidElements(floats, es)
    requires AcceptableItems(ElementsMeaning(floats, es), depth)
    ensures ReadItems(floats, ElementsText(es) + rest, depth, items)
         == Ok((Array(items + ElementsMeaning(floats, es)), rest))
    decreases es, 2
  {
    var e, end := es[0], ElementsEnd(es[1..]) + rest;
    var v, others := Meaning(floats, e.value), ElementsMeaning(floats, es[1..]);
    AcceptableItemsSplit(v, others, depth);
    ElementsEndSplit(es[1..], rest);
    ReadDelimited(floats, e.value, depth, e.after, end);
    ReadFirstElement(floats, es, depth, items, v, rest);
    ConcatAssoc(items, [v], others);
    if es[1..] == [] {
      assert items + [v] + others == items + [v];
    } else {
      ReadItemsComplete(floats, es[1..], depth, items + [v], rest);
    }
  }

  lemma {:induction false} ReadDelimited(floats: Floats, t: Tree, depth: nat, after: string, end: string)
    requires ValidTree(floats, t) && IsBlank(after) && Delimited(end)
    requires Acceptable(Meaning(floats, t), depth)
    ensures ReadValue(floats, TreeText(t) + (after + end), depth) == Ok((Meaning(floats, t), after + end))
    decreases t, 2
  {
    BlankDelimits(after, end);
    if t.NumberTree? {
      DelimiterStops(t.token, after + end);
    }
    ReadValueComplete(floats, t, depth, after + end);
  }

  /** An opening brace with a member behind it. */
  lemma {:induction false} ReadObjectOpens(floats: Floats, before: string, body: string, depth: nat)
    requires IsBlank(before) && body != [] && body[0] == '"'
    ensures ReadObject(floats, "{" + (before + body), depth) == ReadMembers(floats, before + body, depth, [])
  {
    assert ("{" + (before + body))[1..] == before + body;
    SkipBlank(before, body);
  }

  lemma {:induction false} ReadObjectComplete(floats: Floats, es: seq<Entry>, depth: nat, rest: string)
    requires es != [] && ValidEntries(floats, es)
    requires DistinctNames(EntriesMeaning(floats, es))
    requires AcceptableMembers(EntriesMeaning(floats, es), depth)
    ensures ReadObject(floats, "{" + EntriesText(es) + rest, depth)
         == Ok((Object(EntriesMeaning(floats, es)), rest))
    decreases es, 3
  {
    ConcatAssoc("{", EntriesText(es), rest);
    EntriesTextSplit(es, rest);
    ReadObjectOpens(
      floats, es[0].before, QuotedText(es[0].name) + AfterName(es[0], EntriesEnd(es[1..]) + rest), depth);
    assert [] + EntriesMeaning(floats, es) == EntriesMeaning(floats, es);
    ReadMembersComplete(floats, es, depth, [], rest);
  }

  /** What stands behind a member's colon, up to `end`. */
  function AfterColon(e: Entry, end: string): string {
    e.afterColon + (TreeText(e.value) + (e.after + end))
  }

  lemma {:induction false} ReadKeyComplete(e: Entry, end: string, seen: set<string>)
    requires IsBlank(e.before) && ValidItems(e.name) && IsBlank(e.beforeColon)
    requires ItemsChars(e.name) !in seen
    ensures ReadKey(e.before + (QuotedText(e.name) + AfterName(e, end)), seen)
         == Ok((ItemsChars(e.name), AfterColon(e, end)))
  {
    var colon := ":" + AfterColon(e, end);
    SkipBlank(e.before, QuotedText(e.name) + AfterName(e, end));
    ReadStringComplete(e.name, AfterName(e, end));
    SkipBlank(e.beforeColon, colon);
    assert colon[1..] == AfterColon(e, end);
  }

  /** One member of an object: what the loop does when the value behind the colon is `v`. */
  lemma {:induction false} ReadMembersStep(
    floats: Floats, e: Entry, v: JcsValue, end: string, depth: nat, members: seq<Member>)
    requires IsBlank(e.before) && ValidItems(e.name) && IsBlank(e.beforeColon) && IsBlank(e.afterColon)
    requires ValidTree(floats, e.value) && IsBlank(e.after) && end != [] && !IsWs(end[0])
    requires ItemsChars(e.name) !in Names(members)
    requires ReadValue(floats, TreeText(e.value) + (e.after + end), depth) == Ok((v, e.after + end))
    ensures ReadMembers(floats, e.before + (QuotedText(e.name) + AfterName(e, end)), depth, members)
         == if end[0] == ',' then
              ReadMembers(floats, end[1..], depth, members + [Member(ItemsChars(e.name), v)])
            else if end[0] == '}' then Ok((Object(members + [Member(ItemsChars(e.name), v)]), end[1..]))
            else CanonFail()
  {
    ReadKeyComplete(e, end, Names(members));
    TreeBegins(floats, e.value);
    SkipBlank(e.afterColon, TreeText(e.value) + (e.after + end));
    SkipBlank(e.after, end);
  }

  lemma {:induction false} EntriesEndSplit(es: seq<Entry>, rest: string)
    ensures var end := EntriesEnd(es) + rest;
            && end != [] && !IsWs(end[0]) && Delimited(end)
            && (es == [] ==> end[0] == '}' && end[1..] == rest)
            && (es != [] ==> end[0] == ',' && end[1..] == EntriesText(es) + rest)
  {
    if es != [] {
      ConcatAssoc(",", EntriesText(es), rest);
    }
  }

  /** The first of some members, the value in it being read. */
  lemma {:induction false} ReadFirstEntry(
    floats: Floats, es: seq<Entry>, depth: nat, members: seq<Member>, v: JcsValue, rest: string)
    requires es != [] && ValidEntries(floats, es)
    requires ItemsChars(es[0].name) !in Names(members)
    requires ReadValue(floats, TreeText(es[0].value) + (es[0].after + (EntriesEnd(es[1..]) + rest)), depth)
          == Ok((v, es[0].after + (EntriesEnd(es[1..]) + rest)))
    ensures var read := members + [Member(ItemsChars(es[0].name), v)];
            ReadMembers(floats, EntriesText(es) + rest, depth, members)
            == if es[1..] == [] then Ok((Object(read), rest))
            else ReadMembers(floats, EntriesText(es[1..]) + rest, depth, read)
  {
    EntriesEndSplit(es[1..], rest);
    EntriesTextSplit(es, rest);
    ReadMembersStep(floats, es[0], v, EntriesEnd(es[1..]) + rest, depth, members);
  }

  lemma {:induction false} ReadMembersComplete(
    floats: Floats, es: seq<Entry>, depth: nat, members: seq<Member>, rest: string)
    requires es != [] && ValidEntries(floats, es)
    requires DistinctNames(members + EntriesMeaning(floats, es))
    requires AcceptableMembers(EntriesMeaning(floats, es), depth)
    ensures ReadMembers(floats, EntriesText(es) + rest, depth, members)
         == Ok((Object(members + EntriesMeaning(floats, es)), rest))
    decreases es, 2
  {
    var e, end := es[0], EntriesEnd(es[1..]) + rest;
    var m, others := Member(ItemsChars(e.name), Meaning(floats, e.value)), EntriesMeaning(floats, es[1..]);
    AcceptableMembersSplit(m, others, depth);
    NewName(members, m, others);
    EntriesEndSplit(es[1..], rest);
    ReadDelimited(floats, e.value, depth, e.after, end);
    ReadFirstEntry(floats, es, depth, members, m.value, rest);
    ConcatAssoc(members, [m], others);
    if es[1..] == [] {
      assert members + [m] + others == members + [m];
    } else {
      ReadMembersComplete(floats, es[1..], depth, members + [m], rest);
    }
  }

  lemma {:induction false} NewName(members: seq<Member>, m: Member, others: seq<Member>)
    requires DistinctNames(members + ([m] + others))
    ensures m.name !in Names(members)
  {
    var all := members + ([m] + others);
    assert all[|members|] == m;
    forall i | 0 <= i < |members|
      ensures members[i].name != m.name
    {
      assert all[i] == members[i];
    }
  }
}
