/**
 The second intake: values of `serde_json`, whose objects are maps, and their conversion to
 `JcsValue`.
 */
module SerdePath {
  import opened Results
  import opened Sequences
  import opened Numbers
  import opened Utf16
  import opened Values
  import opened Printer
  import opened Reading
  import opened RoundTrip
  import Parsing

  /**
   A parsed JSON value. The entries of an object are listed in the order the map is iterated in;
   a number is given by what `as_f64` says of it.
   */
  datatype SerdeValue =
    | SNull
    | SBool(b: bool)
    | SNumber(asF64: Option<F64>)
    | SString(s: string)
    | SArray(items: seq<SerdeValue>)
    | SObject(entries: seq<SerdeEntry>)
  {
    function Get(key: string): Option<SerdeValue> {
      if SObject? then Lookup(entries, key) else None
    }

    function AsStr(): Option<string> {
      if SString? then Some(s) else None
    }

    function AsArray(): Option<seq<SerdeValue>> {
      if SArray? then Some(items) else None
    }
  }

  datatype SerdeEntry = SerdeEntry(key: string, value: SerdeValue)

  function Lookup(entries: seq<SerdeEntry>, key: string): Option<SerdeValue> {
    if entries == [] then None
    else if entries[0].key == key then Some(entries[0].value)
    else Lookup(entries[1..], key)
  }

  /** The first entry with the key has the value. */
  predicate HasFirst(entries: seq<SerdeEntry>, key: string, k: nat, value: SerdeValue) {
    && k < |entries| && entries[k] == SerdeEntry(key, value)
    && forall j | 0 <= j < k :: entries[j].key != key
  }

  /** An object whose first entry with the key, if not the only one, has the value. */
  ghost predicate HasEntry(v: SerdeValue, key: string, value: SerdeValue) {
    v.SObject? && exists k: nat :: HasFirst(v.entries, key, k, value)
  }

  lemma {:induction false} LookupFinds(entries: seq<SerdeEntry>, key: string) returns (i: nat)
    requires Lookup(entries, key).Some?
    ensures HasFirst(entries, key, i, Lookup(entries, key).value)
  {
    if entries[0].key == key {
      i := 0;
    } else {
      i := LookupFinds(entries[1..], key);
      i := i + 1;
    }
  }

  lemma {:induction false} LookupHits(entries: seq<SerdeEntry>, i: nat)
    requires i < |entries| && forall j | 0 <= j < i :: entries[j].key != entries[i].key
    ensures Lookup(entries, entries[i].key) == Some(entries[i].value)
  {
    if i > 0 {
      LookupHits(entries[1..], i - 1);
    }
  }

  lemma {:induction false} GetIff(v: SerdeValue, key: string, value: SerdeValue)
    ensures v.Get(key) == Some(value) <==> HasEntry(v, key, value)
  {
    if v.Get(key) == Some(value) {
      var k := LookupFinds(v.entries, key);
    }
    if HasEntry(v, key, value) {
      var k: nat :| HasFirst(v.entries, key, k, value);
      LookupHits(v.entries, k);
    }
  }

  // ---- Conversion -----------------------------------------------------------------------

  /** The same tree; a number that is no double at all is carried as NaN. */
  function ToJcs(v: SerdeValue): JcsValue {
    match v
    case SNull => Null
    case SBool(b) => Bool(b)
    case SNumber(Some(x)) => Number(x)
    case SNumber(None) => Number(NaN)
    case SString(s) => String(s)
    case SArray(items) => Array(ToJcsItems(items))
    case SObject(entries) => Object(ToJcsMembers(entries))
  }

  function ToJcsItems(items: seq<SerdeValue>): (r: seq<JcsValue>)
    ensures |r| == |items|
  {
    seq(|items|, i requires 0 <= i < |items| => ToJcs(items[i]))
  }

  function ToJcsMembers(entries: seq<SerdeEntry>): (r: seq<Member>)
    ensures |r| == |entries|
    ensures forall i | 0 <= i < |r| :: r[i].name == entries[i].key
  {
    seq(|entries|, i requires 0 <= i < |entries| => Member(entries[i].key, ToJcs(entries[i].value)))
  }

  predicate AllFinite(v: JcsValue) {
    match v
    case Number(x) => x.IsFinite()
    case Array(items) => forall i | 0 <= i < |items| :: AllFinite(items[i])
    case Object(members) => forall i | 0 <= i < |members| :: AllFinite(members[i].value)
    case _ => true
  }

  lemma {:induction false} InDomainAllFinite(v: JcsValue)
    requires InDomain(v)
    ensures AllFinite(v)
  {
    match v
    case Array(items) =>
      forall i | 0 <= i < |items| {
        InDomainAllFinite(items[i]);
      }
    case Object(members) =>
      forall i | 0 <= i < |members| {
        InDomainAllFinite(members[i].value);
      }
    case _ =>
  }

  predicate Convertible(v: JcsValue, depth: nat) {
    Fits(v, depth) && AllFinite(v)
  }

  /** Converts exactly the values that nest within the bound and hold finite doubles only. */
  method FromSerdeValueAt(value: SerdeValue, depth: nat) returns (r: Result<JcsValue>)
    ensures r == if Convertible(ToJcs(value), depth) then Ok(ToJcs(value)) else CanonFail()
  {
    match value {
      case SNull => return Ok(Null);
      case SBool(b) => return Ok(Bool(b));
      case SNumber(asF64) =>
        if asF64.None? || !asF64.value.IsFinite() {
          return CanonFail();
        }
        return Ok(Number(asF64.value));
      case SString(s) => return Ok(String(s));
      case SArray(items) =>
        if depth >= MAX_DEPTH {
          return CanonFail();
        }
        var out: seq<JcsValue> := [];
        ghost var whole := ToJcsItems(items);
        for i := 0 to |items|
          invariant out == whole[..i]
          invariant forall k | 0 <= k < i :: Convertible(whole[k], depth + 1)
        {
          var item := FromSerdeValueAt(items[i], depth + 1);
          assert whole[i] == ToJcs(items[i]);
          if item.Err? {
            assert !Convertible(whole[i], depth + 1);
            return CanonFail();
          }
          out := out + [item.value];
        }
        assert whole[..|items|] == whole;
        return Ok(Array(out));
      case SObject(entries) =>
        if depth >= MAX_DEPTH {
          return CanonFail();
        }
        var out: seq<Member> := [];
        ghost var whole := ToJcsMembers(entries);
        for i := 0 to |entries|
          invariant out == whole[..i]
          invariant forall k | 0 <= k < i :: Convertible(whole[k].value, depth + 1)
        {
          var member := FromSerdeValueAt(entries[i].value, depth + 1);
          assert whole[i].value == ToJcs(entries[i].value);
          if member.Err? {
            assert !Convertible(whole[i].value, depth + 1);
            return CanonFail();
          }
          out := out + [Member(entries[i].key, member.value)];
        }
        assert whole[..|entries|] == whole;
        return Ok(Object(out));
    }
  }

  /** The value path accepts and prints what the printer accepts and prints for the same tree. */
  method CanonicalizeJsonValue(value: SerdeValue) returns (r: Result<string>)
    ensures r == Canonicalized(ToJcs(value))
  {
    var jcs := FromSerdeValueAt(value, 0);
    FitsIffNesting(ToJcs(value), 0);
    if InDomain(ToJcs(value)) {
      InDomainAllFinite(ToJcs(value));
    }
    if jcs.Err? {
      return Err(jcs.error);
    }
    r := CanonicalizeValue(jcs.value);
  }

  /** The raw path. */
  method CanonicalizeText(floats: Floats, text: string) returns (r: Result<string>)
    ensures r == Canonicalize(floats, text)
  {
    var v := Parsing.Parse(floats, text);
    if v.Err? {
      return Err(v.error);
    }
    r := CanonicalizeValue(v.value);
  }

  // ---- Maps -----------------------------------------------------------------------------

  /** Insertion into a map ordered by scalar values; a key already present gets the new value. */
  function MapInsert(entries: seq<SerdeEntry>, e: SerdeEntry): seq<SerdeEntry> {
    if entries == [] then [e]
    else
      match CompareScalars(e.key, entries[0].key)
      case Less => [e] + entries
      case Equal => [e] + entries[1..]
      case Greater => [entries[0]] + MapInsert(entries[1..], e)
  }

  /** The ordered map that `serde_json` builds of a tree, member after member. */
  function MapOrdered(v: JcsValue): SerdeValue {
    match v
    case Null => SNull
    case Bool(b) => SBool(b)
    case Number(x) => SNumber(Some(x))
    case String(s) => SString(s)
    case Array(items) => SArray(seq(|items|, i requires 0 <= i < |items| => MapOrdered(items[i])))
    case Object(members) => SObject(MapOf(members))
  }

  function MapOf(members: seq<Member>): seq<SerdeEntry> {
    if members == [] then []
    else
      var last := members[|members| - 1];
      MapInsert(MapOf(members[..|members| - 1]), SerdeEntry(last.name, MapOrdered(last.value)))
  }

  /** An insertion is seen under its key and nowhere else. */
  lemma {:induction false} MapInsertGet(entries: seq<SerdeEntry>, e: SerdeEntry, key: string)
    ensures Lookup(MapInsert(entries, e), key) == if key == e.key then Some(e.value) else Lookup(entries, key)
  {
    if entries != [] {
      CompareEqual(Scalars(e.key), Scalars(entries[0].key));
      if CompareScalars(e.key, entries[0].key) == Equal {
        ScalarsInjective(e.key, entries[0].key);
      }
      MapInsertGet(entries[1..], e, key);
    }
  }

  /** Of several members with one name the map keeps the last one's value. */
  lemma {:induction false} MapKeepsLast(members: seq<Member>, i: nat)
    requires i < |members| && forall j | i < j < |members| :: members[j].name != members[i].name
    ensures Lookup(MapOf(members), members[i].name) == Some(MapOrdered(members[i].value))
  {
    var front, last := members[..|members| - 1], members[|members| - 1];
    MapInsertGet(MapOf(front), SerdeEntry(last.name, MapOrdered(last.value)), members[i].name);
    if i < |members| - 1 {
      MapKeepsLast(front, i);
    }
  }

  predicate Keyless(entries: seq<SerdeEntry>, key: string) {
    forall i | 0 <= i < |entries| :: entries[i].key != key
  }

  lemma {:induction false} MapInsertNew(entries: seq<SerdeEntry>, e: SerdeEntry)
    requires Keyless(entries, e.key)
    ensures multiset(MapInsert(entries, e)) == multiset(entries) + multiset{e}
  {
    if entries != [] {
      CompareEqual(Scalars(e.key), Scalars(entries[0].key));
      if CompareScalars(e.key, entries[0].key) == Equal {
        ScalarsInjective(e.key, entries[0].key);
        assert false;
      }
      MapInsertNew(entries[1..], e);
      assert entries == [entries[0]] + entries[1..];
    }
  }

  function Entries(members: seq<Member>): (r: seq<SerdeEntry>)
    ensures |r| == |members|
    ensures forall i | 0 <= i < |r| :: r[i].key == members[i].name
  {
    seq(|members|, i requires 0 <= i < |members| => SerdeEntry(members[i].name, MapOrdered(members[i].value)))
  }

  lemma {:induction false} EntriesSnoc(members: seq<Member>)
    requires members != []
    ensures var last := members[|members| - 1];
            Entries(members) == Entries(members[..|members| - 1]) + [SerdeEntry(last.name, MapOrdered(last.value))]
  {
  }

  lemma {:induction false} NoSuchKey(entries: seq<SerdeEntry>, members: seq<Member>, key: string)
    requires multiset(entries) == multiset(Entries(members))
    requires forall i | 0 <= i < |members| :: members[i].name != key
    ensures Keyless(entries, key)
  {
    forall i | 0 <= i < |entries|
      ensures entries[i].key != key
    {
      InPermutation(entries, Entries(members), i);
    }
  }

  /** With distinct names, the map holds every member, in some order. */
  lemma {:induction false} MapOfHoldsAll(members: seq<Member>)
    requires DistinctNames(members)
    ensures multiset(MapOf(members)) == multiset(Entries(members))
  {
    if members != [] {
      var front, last := members[..|members| - 1], members[|members| - 1];
      MapOfHoldsAll(front);
      EntriesSnoc(members);
      NoSuchKey(MapOf(front), front, last.name);
      MapInsertNew(MapOf(front), SerdeEntry(last.name, MapOrdered(last.value)));
    }
  }

  function ToJcsMember(e: SerdeEntry): Member {
    Member(e.key, ToJcs(e.value))
  }

  lemma {:induction false} ToJcsPermute(a: seq<SerdeEntry>, b: seq<SerdeEntry>)
    requires multiset(a) == multiset(b)
    ensures multiset(ToJcsMembers(a)) == multiset(ToJcsMembers(b))
  {
    MappedPermute(ToJcsMember, a, ToJcsMembers(a), b, ToJcsMembers(b));
  }

  /** Passing a tree of the domain through the map leaves its canonical tree as it was. */
  lemma {:induction false} MapOrderedSameCanon(v: JcsValue)
    requires InDomain(v)
    ensures Canon(ToJcs(MapOrdered(v))) == Canon(v)
  {
    match v
    case Array(items) =>
      var through := ToJcsItems(MapOrdered(v).items);
      forall i | 0 <= i < |items|
        ensures CanonItems(through)[i] == CanonItems(items)[i]
      {
        MapOrderedSameCanon(items[i]);
      }
      assert CanonItems(through) == CanonItems(items);
    case Object(members) =>
      var through := ToJcsMembers(Entries(members));
      forall i | 0 <= i < |members|
        ensures CanonMembers(through)[i] == CanonMembers(members)[i]
      {
        MapOrderedSameCanon(members[i].value);
      }
      assert CanonMembers(through) == CanonMembers(members);
      ObjectThroughMap(members);
    case _ =>
  }

  lemma {:induction false} ObjectThroughMap(members: seq<Member>)
    requires DistinctNames(members) && CanonMembers(ToJcsMembers(Entries(members))) == CanonMembers(members)
    ensures SortByName(CanonMembers(ToJcsMembers(MapOf(members)))) == SortByName(CanonMembers(members))
  {
    MapOfHoldsAll(members);
    ToJcsPermute(MapOf(members), Entries(members));
    CanonMembersPermute(ToJcsMembers(MapOf(members)), ToJcsMembers(Entries(members)));
    SortSame(CanonMembers(members), CanonMembers(ToJcsMembers(MapOf(members))));
  }

  /** Both intakes agree: through the map, an accepted text keeps its canonical form. */
  lemma {:induction false} PathsAgree(floats: Floats, text: string)
    requires Parsed(floats, text).Ok?
    ensures Canonicalized(ToJcs(MapOrdered(Parsed(floats, text).value))) == Canonicalize(floats, text)
    ensures Canonicalize(floats, text).Ok?
  {
    var v := Parsed(floats, text).value;
    var w := ToJcs(MapOrdered(v));
    ParsedIsPrintable(floats, text);
    MapOrderedSameCanon(v);
    SameMeaningIffSameCanon(v, w);
    SameMeaningKeeps(v, w, 0);
    FitsIffNesting(v, 0);
    FitsIffNesting(w, 0);
  }

  // ---- Repeated names on the value path -------------------------------------------------

  predicate KeysAscend(entries: seq<SerdeEntry>) {
    forall i, j | 0 <= i < j < |entries| :: CompareScalars(entries[i].key, entries[j].key) == Less
  }

  lemma {:induction false} MapInsertKeys(entries: seq<SerdeEntry>, e: SerdeEntry)
    requires KeysAscend(entries)
    ensures KeysAscend(MapInsert(entries, e))
    ensures forall x | x in MapInsert(entries, e) :: x == e || x in entries
  {
    if entries != [] {
      var c := CompareScalars(e.key, entries[0].key);
      CompareEqual(Scalars(e.key), Scalars(entries[0].key));
      CompareReverse(Scalars(e.key), Scalars(entries[0].key));
      if c == Less {
        forall k | 0 <= k < |entries|
          ensures CompareScalars(e.key, entries[k].key) == Less
        {
          if k > 0 {
            CompareTransitive(Scalars(e.key), Scalars(entries[0].key), Scalars(entries[k].key));
          }
        }
      } else if c == Greater {
        MapInsertKeys(entries[1..], e);
        var rest := MapInsert(entries[1..], e);
        forall k | 0 <= k < |rest|
          ensures CompareScalars(entries[0].key, rest[k].key) == Less
        {
          assert rest[k] in rest;
          if rest[k] != e {
            var i :| 0 <= i < |entries[1..]| && entries[1..][i] == rest[k];
            assert rest[k] == entries[i + 1];
          }
        }
      }
    }
  }

  /** Every entry of the map was a member, and no key occurs twice, whatever the members were. */
  lemma {:induction false} MapOfKeys(members: seq<Member>)
    ensures KeysAscend(MapOf(members))
    ensures forall x | x in MapOf(members) :: x in Entries(members)
  {
    if members != [] {
      var front, last := members[..|members| - 1], members[|members| - 1];
      MapOfKeys(front);
      MapInsertKeys(MapOf(front), SerdeEntry(last.name, MapOrdered(last.value)));
      EntriesSnoc(members);
    }
  }

  lemma {:induction false} KeysAscendDistinct(entries: seq<SerdeEntry>)
    requires KeysAscend(entries)
    ensures DistinctNames(ToJcsMembers(entries))
  {
    forall i, j | 0 <= i < j < |entries|
      ensures entries[i].key != entries[j].key
    {
      CompareEqual(Scalars(entries[i].key), Scalars(entries[j].key));
    }
  }

  lemma {:induction false} MapOrderedAccepted(v: JcsValue, depth: nat)
    requires AllFinite(v) && Fits(v, depth)
    ensures InDomain(ToJcs(MapOrdered(v))) && Fits(ToJcs(MapOrdered(v)), depth)
    decreases v
  {
    match v
    case Array(items) =>
      forall i | 0 <= i < |items|
        ensures InDomain(ToJcsItems(MapOrdered(v).items)[i])
        ensures Fits(ToJcsItems(MapOrdered(v).items)[i], depth + 1)
      {
        MapOrderedAccepted(items[i], depth + 1);
      }
    case Object(members) =>
      var entries := MapOf(members);
      MapOfKeys(members);
      KeysAscendDistinct(entries);
      forall k | 0 <= k < |entries|
        ensures InDomain(ToJcsMembers(entries)[k].value)
        ensures Fits(ToJcsMembers(entries)[k].value, depth + 1)
      {
        assert entries[k] in Entries(members);
        var i :| 0 <= i < |members| && Entries(members)[i] == entries[k];
        MapOrderedAccepted(members[i].value, depth + 1);
      }
    case _ =>
  }

  /**
   The value path cannot see repeated names: a tree that the printer rejects for nothing but a
   repeated name is accepted once it has gone through a map.
   */
  lemma {:induction false} MapHidesRepeatedNames(v: JcsValue)
    requires AllFinite(v) && Nesting(v) <= MAX_DEPTH
    ensures Canonicalized(ToJcs(MapOrdered(v))).Ok?
    ensures Canonicalized(v).Ok? <==> InDomain(v)
  {
    FitsIffNesting(v, 0);
    FitsIffNesting(ToJcs(MapOrdered(v)), 0);
    MapOrderedAccepted(v, 0);
  }

  /** For instance, `{"a":null,"a":null}`. */
  lemma {:induction false} RepeatedNameHidden()
    ensures var v := Object([Member("a", Null), Member("a", Null)]);
            Canonicalized(v) == CanonFail() && Canonicalized(ToJcs(MapOrdered(v))).Ok?
  {
    var members := [Member("a", Null), Member("a", Null)];
    assert members[1..] == [Member("a", Null)] && members[1..][1..] == [];
    assert members[0].name == members[1].name;
    MapHidesRepeatedNames(Object(members));
  }
}
