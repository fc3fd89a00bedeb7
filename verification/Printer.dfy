/** The canonical serializer: a buffer that the `write_*` methods append to. */
module Printer {
  import opened Results
  import opened Sequences
  import opened Decimals
  import opened Numbers
  import opened Strings
  import opened Utf16
  import opened Values

  // ---- The text of a tree, members in the order given ------------------------------------

  /** Plain JSON text without insignificant whitespace. A number that is not finite has none. */
  function Plain(v: JcsValue): string {
    match v
    case Null => "null"
    case Bool(b) => if b then "true" else "false"
    case Number(x) => if x.IsFinite() then NumberText(x) else ""
    case String(s) => StringText(s)
    case Array(items) => "[" + (ItemsPlain(items, true) + "]")
    case Object(members) => "{" + (MembersPlain(members, true) + "}")
  }

  function Comma(first: bool): string {
    if first then "" else ","
  }

  function ItemsPlain(items: seq<JcsValue>, first: bool): string {
    if items == [] then "" else Comma(first) + (Plain(items[0]) + ItemsPlain(items[1..], false))
  }

  function MembersPlain(members: seq<Member>, first: bool): string {
    if members == [] then ""
    else Comma(first) + (MemberPlain(members[0]) + MembersPlain(members[1..], false))
  }

  function MemberPlain(m: Member): string {
    StringText(m.name) + (":" + Plain(m.value))
  }

  /** What the printer accepts: the domain, with containers nested at most 128 deep. */
  predicate Printable(v: JcsValue) {
    Nesting(v) <= MAX_DEPTH && InDomain(v)
  }

  function CanonicalText(v: JcsValue): string {
    Plain(Canon(v))
  }

  /** `canonicalize_value` as a function. */
  function Canonicalized(v: JcsValue): Result<string> {
    if Printable(v) then Ok(CanonicalText(v)) else CanonFail()
  }

  // ---- Duplicate names ------------------------------------------------------------------

  /** The scan over adjacent pairs of the sorted members. */
  predicate AdjacentSameName(sorted: seq<Member>) {
    exists i | 0 <= i < |sorted| - 1 :: sorted[i].name == sorted[i + 1].name
  }

  /** In sorted members, comparing neighbours finds a repeated name wherever it was. */
  lemma {:induction false} AdjacentScanFindsDuplicates(members: seq<Member>)
    ensures AdjacentSameName(SortByName(members)) <==> !DistinctNames(members)
  {
    SortByNameOrders(members);
    AdjacentScanExact(SortByName(members));
    DistinctNamesIff(members, SortByName(members));
  }

  lemma {:induction false} AdjacentScanExact(sorted: seq<Member>)
    requires NamesOrdered(sorted)
    ensures AdjacentSameName(sorted) <==> !DistinctNames(sorted)
  {
    if i, j :| 0 <= i < j < |sorted| && sorted[i].name == sorted[j].name {
      NameOrderTotal(sorted[i].name, sorted[i + 1].name, sorted[i].name);
      NameOrderTotal(sorted[i].name, sorted[j].name, sorted[i + 1].name);
      if i + 1 < j {
        NameOrderTotal(sorted[i + 1].name, sorted[j].name, sorted[i].name);
      }
      assert sorted[i].name == sorted[i + 1].name;
    }
  }

  // ---- Sorting before or after descending -----------------------------------------------

  lemma {:induction false} SameNamesOrdered(a: seq<Member>, b: seq<Member>)
    requires |a| == |b| && forall i | 0 <= i < |a| :: a[i].name == b[i].name
    requires DistinctNames(a) && NamesOrdered(a)
    ensures DistinctNames(b) && NamesOrdered(b)
  {
  }

  /** The printer sorts first and descends afterwards; the canonical tree does it bottom-up. */
  lemma {:induction false} SortThenCanon(members: seq<Member>)
    requires DistinctNames(members)
    ensures CanonMembers(SortByName(members)) == SortByName(CanonMembers(members))
  {
    var sorted := SortByName(members);
    CanonMembersPermute(sorted, members);
    DistinctNamesPermute(members, sorted);
    SortByNameOrders(members);
    SameNamesOrdered(sorted, CanonMembers(sorted));
    SortedStays(CanonMembers(sorted));
    SortSame(CanonMembers(sorted), CanonMembers(members));
  }

  lemma {:induction false} AcceptableObject(members: seq<Member>, depth: nat)
    ensures Acceptable(Object(members), depth)
       <==> depth < MAX_DEPTH && DistinctNames(members) && AcceptableMembers(members, depth + 1)
  {
  }

  /** Writing the sorted members succeeds for all of them exactly when it does for the members. */
  lemma {:induction false} SortedAcceptable(members: seq<Member>, sorted: seq<Member>, depth: nat)
    requires multiset(sorted) == multiset(members) && NamesOrdered(sorted)
    ensures Acceptable(Object(members), depth)
       <==> depth < MAX_DEPTH && !AdjacentSameName(sorted) && AcceptableMembers(sorted, depth + 1)
  {
    AcceptableObject(members, depth);
    AdjacentScanExact(sorted);
    DistinctNamesIff(members, sorted);
    if AcceptableMembers(members, depth + 1) {
      AllValuesPermute(v => Acceptable(v, depth + 1), members, sorted);
    } else if AcceptableMembers(sorted, depth + 1) {
      AllValuesPermute(v => Acceptable(v, depth + 1), sorted, members);
    }
  }

  lemma {:induction false} ObjectText(members: seq<Member>)
    requires DistinctNames(members)
    ensures CanonicalText(Object(members))
         == "{" + (MembersPlain(CanonMembers(SortByName(members)), true) + "}")
  {
    SortThenCanon(members);
    PlainObject(Canon(Object(members)), CanonMembers(SortByName(members)));
  }

  lemma {:induction false} PlainObject(v: JcsValue, members: seq<Member>)
    requires v == Object(members)
    ensures Plain(v) == "{" + (MembersPlain(members, true) + "}")
  {
  }

  // ---- Writing --------------------------------------------------------------------------

  /** The growing output string every `write_*` method is handed. */
  class Output {
    var text: string

    constructor ()
      ensures text == ""
    {
      text := "";
    }

    method Push(s: string)
      modifies this
      ensures text == old(text) + s
    {
      text := text + s;
    }
  }

  method WriteNumber(x: F64, out: Output) returns (r: Result<()>)
    modifies out
    ensures r == if x.IsFinite() then Ok(()) else CanonFail()
    ensures out.text == old(out.text) + if x.IsFinite() then NumberText(x) else ""
  {
    if !x.IsFinite() {
      return CanonFail();
    }
    if x.Zero? {
      out.Push("0");
      return Ok(());
    }
    if x.neg {
      out.Push("-");
    }
    ghost var start := out.text;
    assert start == old(out.text) + SignText(x.neg);
    WriteLayout(x.digits, x.exp + 1, out);
    ConcatAssoc(old(out.text), SignText(x.neg), Layout(x.digits, x.exp + 1));
    return Ok(());
  }

  /** The four branches of the ECMAScript layout, `n` being the position of the decimal point. */
  method WriteLayout(digits: string, n: int, out: Output)
    requires digits != []
    modifies out
    ensures out.text == old(out.text) + Layout(digits, n)
  {
    var k := |digits|;
    ghost var start := out.text;
    if k <= n && n <= 21 {
      out.Push(digits);
      out.Push(Zeros(n - k));
      ConcatAssoc(start, digits, Zeros(n - k));
    } else if 0 < n && n <= 21 {
      out.Push(digits[..n]);
      out.Push(".");
      out.Push(digits[n..]);
      ConcatAssoc4(start, digits[..n], ".", digits[n..]);
    } else if -6 < n && n <= 0 {
      out.Push("0.");
      out.Push(Zeros(-n));
      out.Push(digits);
      ConcatAssoc4(start, "0.", Zeros(-n), digits);
    } else {
      WriteExponential(digits, n - 1, out);
    }
  }

  /** The branch with an exponent. */
  method WriteExponential(digits: string, e: int, out: Output)
    requires digits != []
    modifies out
    ensures out.text == old(out.text) + ExponentialLayout(digits, e)
  {
    ghost var start := out.text;
    var mantissa := if |digits| == 1 then digits else digits[..1] + ("." + digits[1..]);
    var sign, magnitude := if e >= 0 then "+" else "-", NatText(if e >= 0 then e else -e);
    out.Push(mantissa);
    out.Push("e");
    out.Push(sign);
    out.Push(magnitude);
    ConcatAssoc4(start + mantissa, "e", sign, magnitude);
    ConcatAssoc(start, mantissa, "e" + (sign + magnitude));
  }

  method WriteString(s: string, out: Output)
    modifies out
    ensures out.text == old(out.text) + StringText(s)
  {
    out.Push("\"");
    ghost var start := out.text;
    for i := 0 to |s|
      invariant out.text == start + EscapeAll(s[..i])
    {
      WriteChar(s[i], out);
      assert s[..i + 1] == s[..i] + [s[i]];
      EscapeAllSnoc(s[..i], s[i]);
      ConcatAssoc(start, EscapeAll(s[..i]), EscapeChar(s[i]));
    }
    assert s[..|s|] == s;
    out.Push("\"");
    ConcatAssoc4(old(out.text), "\"", EscapeAll(s), "\"");
  }

  method WriteChar(c: char, out: Output)
    modifies out
    ensures out.text == old(out.text) + EscapeChar(c)
  {
    if c == '"' {
      out.Push("\\\"");
    } else if c == '\\' {
      out.Push("\\\\");
    } else if c == BACKSPACE {
      out.Push("\\b");
    } else if c == TAB {
      out.Push("\\t");
    } else if c == LINE_FEED {
      out.Push("\\n");
    } else if c == FORM_FEED {
      out.Push("\\f");
    } else if c == CARRIAGE_RETURN {
      out.Push("\\r");
    } else if IsControl(c) {
      out.Push("\\u" + ControlHex(c));
    } else {
      out.Push([c]);
    }
  }

  /**
   Appends the canonical text of `value`, which stands inside `depth` containers, or fails. It
   fails exactly outside the domain or beyond the nesting bound, and never takes output back.
   */
  method WriteValue(value: JcsValue, depth: nat, out: Output) returns (r: Result<()>)
    modifies out
    ensures r == if Acceptable(value, depth) then Ok(()) else CanonFail()
    ensures r.Ok? ==> out.text == old(out.text) + CanonicalText(value)
    ensures old(out.text) <= out.text
    decreases value, 1
  {
    match value {
      case Null =>
        out.Push("null");
      case Bool(b) =>
        out.Push(if b then "true" else "false");
      case Number(x) =>
        r := WriteNumber(x, out);
        assert r.Ok? ==> NumberText(x) == NumberText(PositiveZero(x));
        return;
      case String(s) =>
        WriteString(s, out);
      case Array(items) =>
        r := WriteItems(value, items, depth, out);
        return;
      case Object(members) =>
        r := WriteMembers(value, members, depth, out);
        return;
    }
    return Ok(());
  }

  method WriteItems(value: JcsValue, items: seq<JcsValue>, depth: nat, out: Output) returns (r: Result<()>)
    requires value == Array(items)
    modifies out
    ensures r == if Acceptable(value, depth) then Ok(()) else CanonFail()
    ensures r.Ok? ==> out.text == old(out.text) + CanonicalText(value)
    ensures old(out.text) <= out.text
    decreases value, 0
  {
    if depth >= MAX_DEPTH {
      return CanonFail();
    }
    out.Push("[");
    ghost var start, canon := out.text, CanonItems(items);
    for idx := 0 to |items|
      invariant old(out.text) <= out.text
      invariant forall i | 0 <= i < idx :: Acceptable(items[i], depth + 1)
      invariant out.text + ItemsPlain(canon[idx..], idx == 0) == start + ItemsPlain(canon, true)
    {
      ghost var before := out.text;
      var written := WriteItem(items[idx], idx == 0, depth + 1, out);
      PrefixTransitive(old(out.text), before, out.text);
      if written.Err? {
        return written;
      }
      ItemsPlainStep(before, canon, idx);
    }
    assert canon[|items|..] == [];
    assert out.text == start + ItemsPlain(canon, true);
    out.Push("]");
    ConcatAssoc4(old(out.text), "[", ItemsPlain(canon, true), "]");
    return Ok(());
  }

  method WriteItem(item: JcsValue, first: bool, depth: nat, out: Output) returns (r: Result<()>)
    modifies out
    ensures r == if Acceptable(item, depth) then Ok(()) else CanonFail()
    ensures r.Ok? ==> out.text == old(out.text) + Comma(first) + CanonicalText(item)
    ensures old(out.text) <= out.text
    decreases item, 2
  {
    WriteComma(first, out);
    ghost var start := out.text;
    r := WriteValue(item, depth, out);
    PrefixTransitive(old(out.text), start, out.text);
  }

  method WriteComma(first: bool, out: Output)
    modifies out
    ensures out.text == old(out.text) + Comma(first)
  {
    if !first {
      out.Push(",");
    }
  }

  lemma {:induction false} ItemsPlainStep(before: string, items: seq<JcsValue>, idx: nat)
    requires idx < |items|
    ensures before + ItemsPlain(items[idx..], idx == 0)
         == before + Comma(idx == 0) + Plain(items[idx]) + ItemsPlain(items[idx + 1..], false)
  {
    assert items[idx..][1..] == items[idx + 1..];
    ConcatAssoc4(before, Comma(idx == 0), Plain(items[idx]), ItemsPlain(items[idx + 1..], false));
  }

  method WriteMembers(value: JcsValue, members: seq<Member>, depth: nat, out: Output) returns (r: Result<()>)
    requires value == Object(members)
    modifies out
    ensures r == if Acceptable(value, depth) then Ok(()) else CanonFail()
    ensures r.Ok? ==> out.text == old(out.text) + CanonicalText(value)
    ensures old(out.text) <= out.text
    decreases value, 0
  {
    if depth >= MAX_DEPTH {
      return CanonFail();
    }
    var sorted := SortByName(members);
    SortByNameOrders(members);
    SortedAcceptable(members, sorted, depth);
    if AdjacentSameName(sorted) {
      return CanonFail();
    }
    ghost var text := MembersPlain(CanonMembers(sorted), true);
    out.Push("{");
    r := WriteSorted(sorted, members, depth + 1, out);
    if r.Ok? {
      out.Push("}");
      ObjectText(members);
      ConcatAssoc4(old(out.text), "{", text, "}");
    }
  }

  method WriteSorted(sorted: seq<Member>, ghost members: seq<Member>, depth: nat, out: Output)
    returns (r: Result<()>)
    requires multiset(sorted) == multiset(members)
    modifies out
    ensures r == if AcceptableMembers(sorted, depth) then Ok(()) else CanonFail()
    ensures r.Ok? ==> out.text == old(out.text) + MembersPlain(CanonMembers(sorted), true)
    ensures old(out.text) <= out.text
    decreases members, 3
  {
    ghost var start, canon := out.text, CanonMembers(sorted);
    for idx := 0 to |sorted|
      invariant old(out.text) <= out.text
      invariant forall i | 0 <= i < idx :: Acceptable(sorted[i].value, depth)
      invariant out.text + MembersPlain(canon[idx..], idx == 0) == start + MembersPlain(canon, true)
    {
      ghost var before := out.text;
      InPermutation(sorted, members, idx);
      var written := WriteMember(sorted[idx], idx == 0, depth, out);
      PrefixTransitive(old(out.text), before, out.text);
      if written.Err? {
        assert !AcceptableMembers(sorted, depth);
        return CanonFail();
      }
      MembersPlainStep(before, canon, idx);
    }
    assert canon[|sorted|..] == [];
    return Ok(());
  }

  method WriteMember(m: Member, first: bool, depth: nat, out: Output) returns (r: Result<()>)
    modifies out
    ensures r == if Acceptable(m.value, depth) then Ok(()) else CanonFail()
    ensures r.Ok? ==> out.text == old(out.text) + Comma(first) + MemberPlain(CanonMember(m))
    ensures old(out.text) <= out.text
    decreases m, 2
  {
    WriteComma(first, out);
    ghost var start := out.text;
    WriteString(m.name, out);
    out.Push(":");
    ghost var named := out.text;
    r := WriteValue(m.value, depth, out);
    ConcatAssoc4(start, StringText(m.name), ":", CanonicalText(m.value));
    PrefixTransitive(old(out.text), named, out.text);
  }

  lemma {:induction false} MembersPlainStep(before: string, members: seq<Member>, idx: nat)
    requires idx < |members|
    ensures before + MembersPlain(members[idx..], idx == 0)
         == before + Comma(idx == 0) + MemberPlain(members[idx]) + MembersPlain(members[idx + 1..], false)
  {
    assert members[idx..][1..] == members[idx + 1..];
    ConcatAssoc4(before, Comma(idx == 0), MemberPlain(members[idx]), MembersPlain(members[idx + 1..], false));
  }

  /** Canonical text for exactly the printable trees. */
  method CanonicalizeValue(v: JcsValue) returns (r: Result<string>)
    ensures r == Canonicalized(v)
  {
    var out := new Output();
    var written := WriteValue(v, 0, out);
    FitsIffNesting(v, 0);
    if written.Err? {
      return CanonFail();
    }
    assert "" + CanonicalText(v) == CanonicalText(v);
    return Ok(out.text);
  }
}
