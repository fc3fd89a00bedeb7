/** The canonical tree without its algorithm: what is ordered how, and that only one tree is. */
module CanonicalTrees {
  import opened Numbers
  import opened Utf16
  import opened Values

  /** Member names strictly ascend by code units. */
  ghost predicate NamesClimb(members: seq<Member>) {
    forall i, j | 0 <= i < j < |members| :: NamePrecedes(members[i].name, members[j].name)
  }

  /** The names of every object of the tree do. */
  ghost predicate Ordered(v: JcsValue) {
    match v
    case Array(items) => forall i | 0 <= i < |items| :: Ordered(items[i])
    case Object(members) => NamesClimb(members) && forall i | 0 <= i < |members| :: Ordered(members[i].value)
    case _ => true
  }

  predicate NoNegativeZero(v: JcsValue) {
    match v
    case Number(x) => x != Zero(true)
    case Array(items) => forall i | 0 <= i < |items| :: NoNegativeZero(items[i])
    case Object(members) => forall i | 0 <= i < |members| :: NoNegativeZero(members[i].value)
    case _ => true
  }

  lemma {:induction false} NamesClimbIff(members: seq<Member>)
    ensures NamesClimb(members) <==> NamesOrdered(members) && DistinctNames(members)
  {
    forall i, j | 0 <= i < j < |members|
      ensures NamePrecedes(members[i].name, members[j].name)
         <==> CompareNames(members[i].name, members[j].name) != Greater && members[i].name != members[j].name
    {
      CompareTells(Encode(members[i].name), Encode(members[j].name));
      CompareNamesEqual(members[i].name, members[j].name);
    }
  }

  lemma {:induction false} SortedClimb(members: seq<Member>)
    requires DistinctNames(members)
    ensures NamesClimb(SortByName(members))
  {
    SortByNameOrders(members);
    DistinctNamesPermute(members, SortByName(members));
    NamesClimbIff(SortByName(members));
  }

  lemma {:induction false} CanonOrdered(v: JcsValue)
    requires InDomain(v)
    ensures Ordered(Canon(v))
  {
    match v
    case Array(items) =>
      forall i | 0 <= i < |items|
        ensures Ordered(CanonItems(items)[i])
      {
        CanonOrdered(items[i]);
      }
    case Object(members) =>
      var kept := CanonMembers(members);
      SortedClimb(kept);
      forall k | 0 <= k < |SortByName(kept)|
        ensures Ordered(SortByName(kept)[k].value)
      {
        var i := SortedFrom(kept, k);
        CanonOrdered(members[i].value);
      }
    case _ =>
  }

  lemma {:induction false} CanonNoNegativeZero(v: JcsValue)
    ensures NoNegativeZero(Canon(v))
  {
    match v
    case Array(items) =>
      forall i | 0 <= i < |items| {
        CanonNoNegativeZero(items[i]);
      }
    case Object(members) =>
      var kept := CanonMembers(members);
      forall k | 0 <= k < |SortByName(kept)|
        ensures NoNegativeZero(SortByName(kept)[k].value)
      {
        var i := SortedFrom(kept, k);
        CanonNoNegativeZero(members[i].value);
      }
    case _ =>
  }

  /** An ordered tree without a negative zero is its own canonical tree. */
  lemma {:induction false} OrderedStays(c: JcsValue)
    requires Ordered(c) && NoNegativeZero(c)
    ensures Canon(c) == c
  {
    match c
    case Array(items) =>
      forall i | 0 <= i < |items|
        ensures CanonItems(items)[i] == items[i]
      {
        OrderedStays(items[i]);
      }
      assert CanonItems(items) == items;
    case Object(members) =>
      forall i | 0 <= i < |members|
        ensures CanonMembers(members)[i] == members[i]
      {
        OrderedStays(members[i].value);
      }
      assert CanonMembers(members) == members;
      NamesClimbIff(members);
      SortedStays(members);
    case _ =>
  }

  /**
   The canonical tree of a tree of the domain is the one and only tree that means the same, lists
   the members of every object in ascending order of their names' code units, and has no `-0`.
   */
  lemma {:induction false} CanonicalTreeIs(v: JcsValue, c: JcsValue)
    requires InDomain(v)
    ensures c == Canon(v) <==> SameMeaning(v, c) && Ordered(c) && NoNegativeZero(c)
  {
    CanonIdempotent(v);
    SameMeaningIffSameCanon(v, Canon(v));
    CanonOrdered(v);
    CanonNoNegativeZero(v);
    if SameMeaning(v, c) && Ordered(c) && NoNegativeZero(c) {
      SameMeaningIffSameCanon(v, c);
      OrderedStays(c);
    }
  }
}
