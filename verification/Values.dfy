/**
 JSON value trees: nesting, the JCS domain, the canonical tree, and when two trees mean the
 same.
 */
module Values {
  import opened Sequences
  import opened Numbers
  import opened Utf16

  /** Constructed freely by callers; object members keep the order they were given. */
  datatype JcsValue =
    | Null
    | Bool(b: bool)
    | Number(x: F64)
    | String(s: string)
    | Array(items: seq<JcsValue>)
    | Object(members: seq<Member>)

  datatype Member = Member(name: string, value: JcsValue)

  // ---- Nesting --------------------------------------------------------------------------

  const MAX_DEPTH: nat := 128

  function Max(a: nat, b: nat): nat {
    if a < b then b else a
  }

  /** How many containers a leaf of the tree can lie in. */
  function Nesting(v: JcsValue): nat {
    match v
    case Array(items) => 1 + ItemsNesting(items)
    case Object(members) => 1 + MembersNesting(members)
    case _ => 0
  }

  function ItemsNesting(items: seq<JcsValue>): nat {
    if items == [] then 0 else Max(Nesting(items[0]), ItemsNesting(items[1..]))
  }

  function MembersNesting(members: seq<Member>): nat {
    if members == [] then 0 else Max(Nesting(members[0].value), MembersNesting(members[1..]))
  }

  /** No container of `v`, itself standing inside `depth` containers, is nested too deeply. */
  predicate Fits(v: JcsValue, depth: nat) {
    match v
    case Array(items) => depth < MAX_DEPTH && forall i | 0 <= i < |items| :: Fits(items[i], depth + 1)
    case Object(members) =>
      depth < MAX_DEPTH && forall i | 0 <= i < |members| :: Fits(members[i].value, depth + 1)
    case _ => true
  }

  lemma {:induction false} FitsIffNesting(v: JcsValue, depth: nat)
    ensures Fits(v, depth) <==> Nesting(v) == 0 || depth + Nesting(v) <= MAX_DEPTH
  {
    match v
    case Array(items) => ItemsFitIffNesting(items, depth + 1);
    case Object(members) => MembersFitIffNesting(members, depth + 1);
    case _ =>
  }

  lemma {:induction false} ItemsFitIffNesting(items: seq<JcsValue>, depth: nat)
    ensures (depth <= MAX_DEPTH && forall i | 0 <= i < |items| :: Fits(items[i], depth))
       <==> depth + ItemsNesting(items) <= MAX_DEPTH
  {
    if items != [] {
      FitsIffNesting(items[0], depth);
      ItemsFitIffNesting(items[1..], depth);
      assert forall i | 0 < i < |items| :: items[i] == items[1..][i - 1];
      assert forall i | 0 <= i < |items| - 1 :: items[1..][i] == items[i + 1];
    }
  }

  lemma {:induction false} MembersFitIffNesting(members: seq<Member>, depth: nat)
    ensures (depth <= MAX_DEPTH && forall i | 0 <= i < |members| :: Fits(members[i].value, depth))
       <==> depth + MembersNesting(members) <= MAX_DEPTH
  {
    if members != [] {
      FitsIffNesting(members[0].value, depth);
      MembersFitIffNesting(members[1..], depth);
      assert forall i | 0 < i < |members| :: members[i] == members[1..][i - 1];
      assert forall i | 0 <= i < |members| - 1 :: members[1..][i] == members[i + 1];
    }
  }

  // ---- The JCS domain -------------------------------------------------------------------

  predicate DistinctNames(members: seq<Member>) {
    forall i, j | 0 <= i < j < |members| :: members[i].name != members[j].name
  }

  /** All numbers finite, and no object with a repeated member name. */
  predicate InDomain(v: JcsValue) {
    match v
    case Number(x) => x.IsFinite()
    case Array(items) => forall i | 0 <= i < |items| :: InDomain(items[i])
    case Object(members) =>
      DistinctNames(members) && forall i | 0 <= i < |members| :: InDomain(members[i].value)
    case _ => true
  }

  /** In the domain, and nested shallowly enough for a tree that stands inside `depth` containers. */
  predicate Acceptable(v: JcsValue, depth: nat) {
    Fits(v, depth) && InDomain(v)
  }

  predicate AcceptableMembers(members: seq<Member>, depth: nat) {
    forall i | 0 <= i < |members| :: Acceptable(members[i].value, depth)
  }

  /** Every number of the tree is a double of the given float model. */
  ghost predicate AllDoubles(floats: Floats, v: JcsValue) {
    match v
    case Number(x) => floats.IsDouble(x)
    case Array(items) => forall i | 0 <= i < |items| :: AllDoubles(floats, items[i])
    case Object(members) => forall i | 0 <= i < |members| :: AllDoubles(floats, members[i].value)
    case _ => true
  }

  // ---- Sorting members by name ----------------------------------------------------------

  predicate NamesOrdered(members: seq<Member>) {
    forall i, j | 0 <= i < j < |members| :: CompareNames(members[i].name, members[j].name) != Greater
  }

  function Insert(m: Member, sorted: seq<Member>): (r: seq<Member>)
    ensures multiset(r) == multiset{m} + multiset(sorted)
  {
    if sorted == [] then [m]
    else if CompareNames(m.name, sorted[0].name) == Greater then
      assert sorted == [sorted[0]] + sorted[1..];
      [sorted[0]] + Insert(m, sorted[1..])
    else [m] + sorted
  }

  predicate NotAfter(name: string, members: seq<Member>) {
    forall k | 0 <= k < |members| :: CompareNames(name, members[k].name) != Greater
  }

  lemma {:induction false} OrderedFromHead(m: Member, rest: seq<Member>)
    requires NotAfter(m.name, rest) && NamesOrdered(rest)
    ensures NamesOrdered([m] + rest)
  {
    var all := [m] + rest;
    forall i, j | 0 <= i < j < |all|
      ensures CompareNames(all[i].name, all[j].name) != Greater
    {
      assert all[j] == rest[j - 1];
      if i > 0 {
        assert all[i] == rest[i - 1];
      }
    }
  }

  lemma {:induction false} NotAfterInserted(name: string, m: Member, sorted: seq<Member>)
    requires NotAfter(name, sorted) && CompareNames(name, m.name) != Greater
    ensures NotAfter(name, Insert(m, sorted))
  {
    var r := Insert(m, sorted);
    forall k | 0 <= k < |r|
      ensures CompareNames(name, r[k].name) != Greater
    {
      assert r[k] in multiset(r);
      assert r[k] == m || r[k] in sorted;
    }
  }

  lemma {:induction false} InsertKeepsOrder(m: Member, sorted: seq<Member>)
    requires NamesOrdered(sorted)
    ensures NamesOrdered(Insert(m, sorted))
  {
    if sorted == [] {
    } else if CompareNames(m.name, sorted[0].name) == Greater {
      InsertKeepsOrder(m, sorted[1..]);
      NameOrderTotal(m.name, sorted[0].name, m.name);
      NotAfterInserted(sorted[0].name, m, sorted[1..]);
      OrderedFromHead(sorted[0], Insert(m, sorted[1..]));
    } else {
      forall k | 0 <= k < |sorted|
        ensures CompareNames(m.name, sorted[k].name) != Greater
      {
        if k > 0 {
          NotGreaterTransitive(m.name, sorted[0].name, sorted[k].name);
        }
      }
      OrderedFromHead(m, sorted);
    }
  }

  lemma {:induction false} NotGreaterTransitive(a: string, b: string, c: string)
    requires CompareNames(a, b) != Greater && CompareNames(b, c) != Greater
    ensures CompareNames(a, c) != Greater
  {
    NameOrderTotal(a, b, c);
    NameOrderTotal(b, c, a);
    NameOrderTotal(c, a, b);
    NameOrderTotal(c, b, a);
  }

  /** The stable sort of members by name. */
  function SortByName(members: seq<Member>): (r: seq<Member>)
    ensures multiset(r) == multiset(members)
  {
    if members == [] then []
    else
      assert members == [members[0]] + members[1..];
      Insert(members[0], SortByName(members[1..]))
  }

  lemma {:induction false} SortByNameOrders(members: seq<Member>)
    ensures NamesOrdered(SortByName(members))
  {
    if members != [] {
      SortByNameOrders(members[1..]);
      InsertKeepsOrder(members[0], SortByName(members[1..]));
    }
  }

  /** Two different positions hold two occurrences. */
  lemma {:induction false} TwoOccurrences<T>(s: seq<T>, i: nat, j: nat)
    requires i < j < |s| && s[i] == s[j]
    ensures multiset(s)[s[i]] >= 2
  {
    assert s == s[..j] + [s[j]] + s[j + 1..];
    assert s[..j][i] == s[i];
  }

  /** Distinctness of names does not depend on the order of the members. */
  lemma {:induction false} DistinctNamesPermute(a: seq<Member>, b: seq<Member>)
    requires multiset(a) == multiset(b) && DistinctNames(a)
    ensures DistinctNames(b)
  {
    forall i, j | 0 <= i < j < |b|
      ensures b[i].name != b[j].name
    {
      if b[i].name == b[j].name {
        assert b[i] in multiset(b) && b[j] in multiset(b);
        var p :| 0 <= p < |a| && a[p] == b[i];
        var q :| 0 <= q < |a| && a[q] == b[j];
        if p == q {
          TwoOccurrences(b, i, j);
          OneOccurrence(a, p);
        }
        assert false;
      }
    }
  }

  lemma {:induction false} DistinctNamesIff(a: seq<Member>, b: seq<Member>)
    requires multiset(a) == multiset(b)
    ensures DistinctNames(a) <==> DistinctNames(b)
  {
    if DistinctNames(a) {
      DistinctNamesPermute(a, b);
    } else if DistinctNames(b) {
      DistinctNamesPermute(b, a);
    }
  }

  lemma {:induction false} OneOccurrence(a: seq<Member>, p: nat)
    requires DistinctNames(a) && p < |a|
    ensures multiset(a)[a[p]] == 1
  {
    assert a == a[..p] + [a[p]] + a[p + 1..];
    assert a[p] !in a[..p] && a[p] !in a[p + 1..];
  }

  /** With distinct names there is one way to be sorted. */
  lemma {:induction false} SortedUnique(a: seq<Member>, b: seq<Member>)
    requires multiset(a) == multiset(b)
    requires DistinctNames(a) && NamesOrdered(a) && NamesOrdered(b)
    ensures a == b
  {
    SameElements(a, b);
    if a != [] {
      SortedSameHead(a, b);
      TailsSame(a, b);
      SortedUnique(a[1..], b[1..]);
      HeadAndTail(a, b);
    }
  }

  /** Members with distinct names are sorted into the same sequence, whatever order they come in. */
  lemma {:induction false} SortSame(a: seq<Member>, b: seq<Member>)
    requires multiset(a) == multiset(b) && DistinctNames(a)
    ensures SortByName(a) == SortByName(b)
  {
    DistinctNamesPermute(a, SortByName(a));
    SortByNameOrders(a);
    SortByNameOrders(b);
    SortedUnique(SortByName(a), SortByName(b));
  }

  lemma {:induction false} SortedStays(s: seq<Member>)
    requires DistinctNames(s) && NamesOrdered(s)
    ensures SortByName(s) == s
  {
    SortByNameOrders(s);
    SortedUnique(s, SortByName(s));
  }

  lemma {:induction false} SortedSameHead(a: seq<Member>, b: seq<Member>)
    requires multiset(a) == multiset(b) && a != [] && b != []
    requires DistinctNames(a) && NamesOrdered(a) && NamesOrdered(b)
    ensures a[0] == b[0]
  {
    SameElements(a, b);
    assert a[0] in b && b[0] in a;
    var p :| 0 <= p < |b| && b[p] == a[0];
    var q :| 0 <= q < |a| && a[q] == b[0];
    NameOrderTotal(a[0].name, b[0].name, a[0].name);
  }

  // ---- The canonical tree ---------------------------------------------------------------

  /** Members sorted recursively, and `-0` turned into `0`. */
  function Canon(v: JcsValue): JcsValue {
    match v
    case Number(x) => Number(PositiveZero(x))
    case Array(items) => Array(CanonItems(items))
    case Object(members) => Object(SortByName(CanonMembers(members)))
    case _ => v
  }

  function CanonItems(items: seq<JcsValue>): (r: seq<JcsValue>)
    ensures |r| == |items|
  {
    seq(|items|, i requires 0 <= i < |items| => Canon(items[i]))
  }

  function CanonMembers(members: seq<Member>): (r: seq<Member>)
    ensures |r| == |members|
    ensures forall i | 0 <= i < |r| :: r[i].name == members[i].name
  {
    seq(|members|, i requires 0 <= i < |members| => Member(members[i].name, Canon(members[i].value)))
  }

  function CanonMember(m: Member): Member {
    Member(m.name, Canon(m.value))
  }

  lemma {:induction false} CanonMembersMapped(members: seq<Member>)
    ensures Mapped(CanonMember, members, CanonMembers(members))
  {
  }

  lemma {:induction false} CanonMembersWithout(a: seq<Member>, j: nat)
    requires j < |a|
    ensures CanonMembers(Without(a, j)) == Without(CanonMembers(a), j)
  {
    CanonMembersMapped(a);
    CanonMembersMapped(Without(a, j));
    MappedWithout(CanonMember, a, CanonMembers(a), j);
    MappedUnique(CanonMember, Without(a, j), CanonMembers(Without(a, j)), Without(CanonMembers(a), j));
  }

  lemma {:induction false} CanonMembersPermute(a: seq<Member>, b: seq<Member>)
    requires multiset(a) == multiset(b)
    ensures multiset(CanonMembers(a)) == multiset(CanonMembers(b))
  {
    CanonMembersMapped(a);
    CanonMembersMapped(b);
    MappedPermute(CanonMember, a, CanonMembers(a), b, CanonMembers(b));
  }

  /** The canonical members agree, as multisets, if they do once a pair of equals is taken out. */
  lemma {:induction false} CanonMembersPaired(a: seq<Member>, b: seq<Member>, j: nat)
    requires a != [] && j < |b| && CanonMember(a[0]) == CanonMember(b[j])
    ensures multiset(CanonMembers(a)) == multiset(CanonMembers(b))
       <==> multiset(CanonMembers(a[1..])) == multiset(CanonMembers(Without(b, j)))
  {
    WithoutFirst(a);
    CanonMembersWithout(a, 0);
    CanonMembersWithout(b, j);
    WithoutSame(CanonMembers(a), 0, CanonMembers(b), j);
  }

  /** Every sorted member comes from some member of the object. */
  lemma {:induction false} SortedFrom(members: seq<Member>, k: nat) returns (i: nat)
    requires k < |SortByName(members)|
    ensures i < |members| && SortByName(members)[k] == members[i]
  {
    assert SortByName(members)[k] in multiset(members);
    i :| 0 <= i < |members| && members[i] == SortByName(members)[k];
  }

  predicate AllValues(p: JcsValue -> bool, members: seq<Member>) {
    forall i | 0 <= i < |members| :: p(members[i].value)
  }

  /** The order of the members changes nothing about what holds of all of them. */
  lemma {:induction false} AllValuesPermute(p: JcsValue -> bool, a: seq<Member>, b: seq<Member>)
    requires multiset(a) == multiset(b) && AllValues(p, a)
    ensures AllValues(p, b)
  {
    SameElements(a, b);
    forall k | 0 <= k < |b|
      ensures p(b[k].value)
    {
      assert b[k] in a;
      var i :| 0 <= i < |a| && a[i] == b[k];
    }
  }

  /** `kept` has the names of `members`, and values with the property exactly where they have. */
  predicate Alike(p: JcsValue -> bool, members: seq<Member>, kept: seq<Member>) {
    && |kept| == |members|
    && forall i | 0 <= i < |members| :: kept[i].name == members[i].name && p(kept[i].value) == p(members[i].value)
  }

  lemma {:induction false} AlikeSorted(
    p: JcsValue -> bool, members: seq<Member>, kept: seq<Member>, sorted: seq<Member>)
    requires Alike(p, members, kept) && multiset(kept) == multiset(sorted)
    ensures DistinctNames(sorted) <==> DistinctNames(members)
    ensures AllValues(p, sorted) <==> AllValues(p, members)
  {
    AlikeDistinct(p, members, kept);
    DistinctNamesIff(kept, sorted);
    if AllValues(p, kept) {
      AllValuesPermute(p, kept, sorted);
    } else if AllValues(p, sorted) {
      AllValuesPermute(p, sorted, kept);
    }
  }

  lemma {:induction false} AlikeDistinct(p: JcsValue -> bool, members: seq<Member>, kept: seq<Member>)
    requires Alike(p, members, kept)
    ensures DistinctNames(kept) <==> DistinctNames(members)
    ensures AllValues(p, kept) <==> AllValues(p, members)
  {
    forall i, j | 0 <= i < j < |members|
      ensures kept[i].name == kept[j].name <==> members[i].name == members[j].name
    {
    }
  }

  /** A tree is in the domain exactly when its canonical tree is. */
  lemma {:induction false} CanonInDomain(v: JcsValue)
    ensures InDomain(Canon(v)) <==> InDomain(v)
  {
    match v
    case Array(items) =>
      forall i | 0 <= i < |items|
        ensures InDomain(CanonItems(items)[i]) <==> InDomain(items[i])
      {
        CanonInDomain(items[i]);
      }
    case Object(members) =>
      var kept := CanonMembers(members);
      forall i | 0 <= i < |members|
        ensures InDomain(kept[i].value) == InDomain(members[i].value)
      {
        CanonInDomain(members[i].value);
      }
      ObjectInDomain(members, kept, SortByName(kept));
    case _ =>
  }

  lemma {:induction false} ObjectInDomain(members: seq<Member>, kept: seq<Member>, sorted: seq<Member>)
    requires Alike(InDomain, members, kept) && multiset(kept) == multiset(sorted)
    ensures InDomain(Object(sorted)) <==> InDomain(Object(members))
  {
    AlikeSorted(InDomain, members, kept, sorted);
    assert InDomain(Object(members)) <==> DistinctNames(members) && AllValues(InDomain, members);
    assert InDomain(Object(sorted)) <==> DistinctNames(sorted) && AllValues(InDomain, sorted);
  }

  /** A tree fits exactly when its canonical tree does. */
  lemma {:induction false} CanonFits(v: JcsValue, depth: nat)
    ensures Fits(Canon(v), depth) <==> Fits(v, depth)
    decreases v
  {
    match v
    case Array(items) =>
      forall i | 0 <= i < |items|
        ensures Fits(CanonItems(items)[i], depth + 1) <==> Fits(items[i], depth + 1)
      {
        CanonFits(items[i], depth + 1);
      }
    case Object(members) =>
      var kept := CanonMembers(members);
      forall i | 0 <= i < |members|
        ensures Fits(kept[i].value, depth + 1) == Fits(members[i].value, depth + 1)
      {
        CanonFits(members[i].value, depth + 1);
      }
      ObjectFits(members, kept, SortByName(kept), depth);
    case _ =>
  }

  lemma {:induction false} ObjectFits(members: seq<Member>, kept: seq<Member>, sorted: seq<Member>, depth: nat)
    requires Alike(v => Fits(v, depth + 1), members, kept) && multiset(kept) == multiset(sorted)
    ensures Fits(Object(sorted), depth) <==> Fits(Object(members), depth)
  {
    var fits := v => Fits(v, depth + 1);
    AlikeSorted(fits, members, kept, sorted);
    assert Fits(Object(members), depth) <==> depth < MAX_DEPTH && AllValues(fits, members);
    assert Fits(Object(sorted), depth) <==> depth < MAX_DEPTH && AllValues(fits, sorted);
  }

  lemma {:induction false} CanonAllDoubles(floats: Floats, v: JcsValue)
    requires AllDoubles(floats, v)
    ensures AllDoubles(floats, Canon(v))
    decreases v
  {
    match v
    case Array(items) =>
      forall i | 0 <= i < |items| {
        CanonAllDoubles(floats, items[i]);
      }
    case Object(members) =>
      var kept := CanonMembers(members);
      forall k | 0 <= k < |SortByName(kept)|
        ensures AllDoubles(floats, SortByName(kept)[k].value)
      {
        var i := SortedFrom(kept, k);
        CanonAllDoubles(floats, members[i].value);
      }
    case _ =>
  }

  // ---- Meaning --------------------------------------------------------------------------

  /** Equal up to the order of object members, at every level, and up to the sign of zero. */
  ghost predicate SameMeaning(a: JcsValue, b: JcsValue)
    decreases a
  {
    match a
    case Number(x) => b.Number? && PositiveZero(x) == PositiveZero(b.x)
    case Array(items) =>
      && b.Array? && |items| == |b.items|
      && forall i | 0 <= i < |items| :: SameMeaning(items[i], b.items[i])
    case Object(members) => b.Object? && SameMembers(members, b.members)
    case _ => a == b
  }

  /** The members of `a` can be paired off with those of `b`, whatever their order. */
  ghost predicate SameMembers(a: seq<Member>, b: seq<Member>)
    decreases a
  {
    if a == [] then b == []
    else exists j | 0 <= j < |b| :: SameMember(a[0], b[j]) && SameMembers(a[1..], Without(b, j))
  }

  ghost predicate SameMember(a: Member, b: Member)
    decreases a
  {
    a.name == b.name && SameMeaning(a.value, b.value)
  }

  lemma {:induction false} SameMeaningSameCanon(a: JcsValue, b: JcsValue)
    requires SameMeaning(a, b) && InDomain(a)
    ensures Canon(a) == Canon(b)
    decreases a
  {
    match a
    case Array(items) =>
      forall i | 0 <= i < |items|
        ensures CanonItems(items)[i] == CanonItems(b.items)[i]
      {
        SameMeaningSameCanon(items[i], b.items[i]);
      }
      assert CanonItems(items) == CanonItems(b.items);
    case Object(members) =>
      SameMembersSameCanon(members, b.members);
      SortSame(CanonMembers(members), CanonMembers(b.members));
    case _ =>
  }

  lemma {:induction false} SameMembersSameCanon(a: seq<Member>, b: seq<Member>)
    requires SameMembers(a, b)
    requires forall i | 0 <= i < |a| :: InDomain(a[i].value)
    ensures multiset(CanonMembers(a)) == multiset(CanonMembers(b))
    decreases a
  {
    if a != [] {
      var j :| 0 <= j < |b| && SameMember(a[0], b[j]) && SameMembers(a[1..], Without(b, j));
      SameMeaningSameCanon(a[0].value, b[j].value);
      SameMembersSameCanon(a[1..], Without(b, j));
      CanonMembersPaired(a, b, j);
    }
  }

  lemma {:induction false} SameCanonSameMeaning(a: JcsValue, b: JcsValue)
    requires Canon(a) == Canon(b)
    ensures SameMeaning(a, b)
    decreases a
  {
    match a
    case Array(items) =>
      forall i | 0 <= i < |items|
        ensures SameMeaning(items[i], b.items[i])
      {
        assert CanonItems(items)[i] == CanonItems(b.items)[i];
        SameCanonSameMeaning(items[i], b.items[i]);
      }
    case Object(members) =>
      assert multiset(CanonMembers(members)) == multiset(CanonMembers(b.members));
      SameCanonSameMembers(members, b.members);
    case _ =>
  }

  lemma {:induction false} SameCanonSameMembers(a: seq<Member>, b: seq<Member>)
    requires multiset(CanonMembers(a)) == multiset(CanonMembers(b))
    ensures SameMembers(a, b)
    decreases a
  {
    var x, y := CanonMembers(a), CanonMembers(b);
    SameElements(x, y);
    if a != [] {
      assert x[0] in y;
      var j :| 0 <= j < |y| && y[j] == x[0];
      CanonMembersPaired(a, b, j);
      SameCanonSameMeaning(a[0].value, b[j].value);
      SameCanonSameMembers(a[1..], Without(b, j));
      assert SameMember(a[0], b[j]);
    }
  }

  /** Trees of the domain mean the same exactly when they have the same canonical tree. */
  lemma {:induction false} SameMeaningIffSameCanon(a: JcsValue, b: JcsValue)
    requires InDomain(a)
    ensures SameMeaning(a, b) <==> Canon(a) == Canon(b)
  {
    if SameMeaning(a, b) {
      SameMeaningSameCanon(a, b);
    }
    if Canon(a) == Canon(b) {
      SameCanonSameMeaning(a, b);
    }
  }

  /** What means the same as a tree of the domain is in the domain and nests as deep. */
  lemma {:induction false} SameMeaningKeeps(a: JcsValue, b: JcsValue, depth: nat)
    requires SameMeaning(a, b) && InDomain(a)
    ensures InDomain(b)
    ensures Fits(a, depth) <==> Fits(b, depth)
  {
    SameMeaningSameCanon(a, b);
    CanonInDomain(a);
    CanonInDomain(b);
    CanonFits(a, depth);
    CanonFits(b, depth);
  }

  /** On the domain, meaning the same works both ways round. */
  lemma {:induction false} SameMeaningSymmetric(a: JcsValue, b: JcsValue)
    requires SameMeaning(a, b) && InDomain(a)
    ensures SameMeaning(b, a)
  {
    SameMeaningSameCanon(a, b);
    SameCanonSameMeaning(b, a);
  }

  lemma {:induction false} CanonIdempotent(v: JcsValue)
    requires InDomain(v)
    ensures Canon(Canon(v)) == Canon(v)
  {
    match v
    case Array(items) =>
      forall i | 0 <= i < |items|
        ensures CanonItems(CanonItems(items))[i] == CanonItems(items)[i]
      {
        CanonIdempotent(items[i]);
      }
      assert CanonItems(CanonItems(items)) == CanonItems(items);
    case Object(members) =>
      var kept := CanonMembers(members);
      var sorted := SortByName(kept);
      forall k | 0 <= k < |sorted|
        ensures CanonMembers(sorted)[k] == sorted[k]
      {
        var i := SortedFrom(kept, k);
        CanonIdempotent(members[i].value);
      }
      assert CanonMembers(sorted) == sorted;
      DistinctNamesPermute(kept, sorted);
      SortByNameOrders(kept);
      SortedStays(sorted);
    case _ =>
  }
}
