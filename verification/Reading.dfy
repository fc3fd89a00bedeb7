/**
 The recursive-descent parser as functions from the text ahead to a result and what remains after
 it. The class whose methods move through a text is proved against these functions.
 */
module Reading {
  import opened Results
  import opened Decimals
  import opened Numbers
  import opened NumberReader
  import opened Strings
  import opened Values
  import opened Grammar

  // ---- What each parser method returns --------------------------------------------------

  function SkipWs(s: string): (r: string)
    ensures |r| <= |s|
    ensures r != [] ==> !IsWs(r[0])
  {
    if s != [] && IsWs(s[0]) then SkipWs(s[1..]) else s
  }

  function ReadLiteral(s: string, literal: string): (r: Result<string>)
    ensures r.Ok? ==> |r.value| == |s| - |literal|
  {
    if literal <= s then Ok(s[|literal|..]) else CanonFail()
  }

  function ReadValue(floats: Floats, s: string, depth: nat): (r: Result<(JcsValue, string)>)
    ensures r.Ok? ==> |r.value.1| < |s|
    ensures r.Err? ==> r == Err(Canonicalization)
    decreases |s|, 2
  {
    if s == [] then CanonFail()
    else if s[0] == '{' || s[0] == '[' then
      if depth >= MAX_DEPTH then CanonFail()
      else if s[0] == '{' then ReadObject(floats, s, depth + 1)
      else ReadArray(floats, s, depth + 1)
    else if s[0] == '"' then
      var (text, rest) :- ReadString(s);
      Ok((String(text), rest))
    else if s[0] == 't' then
      var rest :- ReadLiteral(s, "true");
      Ok((Bool(true), rest))
    else if s[0] == 'f' then
      var rest :- ReadLiteral(s, "false");
      Ok((Bool(false), rest))
    else if s[0] == 'n' then
      var rest :- ReadLiteral(s, "null");
      Ok((Null, rest))
    else if s[0] == '-' || IsDigit(s[0]) then
      var (x, rest) :- ReadNumber(floats, s);
      Ok((Number(x), rest))
    else CanonFail()
  }

  function ReadArray(floats: Floats, s: string, depth: nat): (r: Result<(JcsValue, string)>)
    ensures r.Ok? ==> |r.value.1| < |s|
    ensures r.Err? ==> r == Err(Canonicalization)
    decreases |s|, 1
  {
    if s == [] || s[0] != '[' then CanonFail()
    else
      var s1 := SkipWs(s[1..]);
      if s1 != [] && s1[0] == ']' then Ok((Array([]), s1[1..]))
      else ReadItems(floats, s1, depth, [])
  }

  /** The rest of an array, `items` having been read already. */
  function ReadItems(floats: Floats, s: string, depth: nat, items: seq<JcsValue>)
    : (r: Result<(JcsValue, string)>)
    ensures r.Ok? ==> |r.value.1| < |s|
    ensures r.Err? ==> r == Err(Canonicalization)
    decreases |s|, 3
  {
    var (v, s1) :- ReadValue(floats, SkipWs(s), depth);
    var s2 := SkipWs(s1);
    if s2 != [] && s2[0] == ',' then ReadItems(floats, s2[1..], depth, items + [v])
    else if s2 != [] && s2[0] == ']' then Ok((Array(items + [v]), s2[1..]))
    else CanonFail()
  }

  function ReadObject(floats: Floats, s: string, depth: nat): (r: Result<(JcsValue, string)>)
    ensures r.Ok? ==> |r.value.1| < |s|
    ensures r.Err? ==> r == Err(Canonicalization)
    decreases |s|, 1
  {
    if s == [] || s[0] != '{' then CanonFail()
    else
      var s1 := SkipWs(s[1..]);
      if s1 != [] && s1[0] == '}' then Ok((Object([]), s1[1..]))
      else ReadMembers(floats, s1, depth, [])
  }

  function Names(members: seq<Member>): set<string> {
    set m | m in members :: m.name
  }

  /** A member name not seen before and the colon behind it. */
  function ReadKey(s: string, seen: set<string>): (r: Result<(string, string)>)
    ensures r.Ok? ==> |r.value.1| < |s|
    ensures r.Err? ==> r == Err(Canonicalization)
  {
    var s0 := SkipWs(s);
    if s0 == [] || s0[0] != '"' then CanonFail()
    else
      var (name, s1) :- ReadString(s0);
      if name in seen then CanonFail()
      else
        var s2 := SkipWs(s1);
        if s2 == [] || s2[0] != ':' then CanonFail() else Ok((name, s2[1..]))
  }

  /** The rest of an object, `members` having been read already. */
  function ReadMembers(floats: Floats, s: string, depth: nat, members: seq<Member>)
    : (r: Result<(JcsValue, string)>)
    ensures r.Ok? ==> |r.value.1| < |s|
    ensures r.Err? ==> r == Err(Canonicalization)
    decreases |s|, 3
  {
    var (name, s1) :- ReadKey(s, Names(members));
    var (v, s2) :- ReadValue(floats, SkipWs(s1), depth);
    var s3 := SkipWs(s2);
    if s3 != [] && s3[0] == ',' then ReadMembers(floats, s3[1..], depth, members + [Member(name, v)])
    else if s3 != [] && s3[0] == '}' then Ok((Object(members + [Member(name, v)]), s3[1..]))
    else CanonFail()
  }

  /** `parse`: one value between blanks and nothing else. */
  function Parsed(floats: Floats, text: string): (r: Result<JcsValue>)
    ensures r.Err? ==> r == Err(Canonicalization)
  {
    var (v, rest) :- ReadValue(floats, SkipWs(text), 0);
    if SkipWs(rest) == [] then Ok(v) else CanonFail()
  }
}
