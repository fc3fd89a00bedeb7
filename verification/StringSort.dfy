/** Rust's order on strings, sorting by it, and the sorted listing of a multiset of names. */
module StringSort {
  import opened Sequences
  import opened Utf16

  predicate Before(a: string, b: string) {
    CompareScalars(a, b) != Greater
  }

  predicate Ascending(s: seq<string>) {
    forall i, j | 0 <= i < j < |s| :: Before(s[i], s[j])
  }

  /** The order is total. */
  lemma {:induction false} BeforeTotal(a: string, b: string, c: string)
    ensures Before(a, b) || Before(b, a)
    ensures Before(a, b) && Before(b, a) <==> a == b
    ensures Before(a, b) && Before(b, c) ==> Before(a, c)
  {
    var x, y, z := Scalars(a), Scalars(b), Scalars(c);
    CompareReverse(x, y);
    CompareReverse(x, z);
    CompareReverse(y, z);
    CompareEqual(x, y);
    CompareEqual(y, z);
    CompareEqual(x, z);
    if x == y {
      ScalarsInjective(a, b);
    }
    if Compare(x, y) == Less && Compare(y, z) == Less {
      CompareTransitive(x, y, z);
    }
  }

  function InsertString(s: string, sorted: seq<string>): (r: seq<string>)
    ensures multiset(r) == multiset{s} + multiset(sorted)
  {
    if sorted == [] then [s]
    else if Before(s, sorted[0]) then [s] + sorted
    else
      assert sorted == [sorted[0]] + sorted[1..];
      [sorted[0]] + InsertString(s, sorted[1..])
  }

  lemma {:induction false} InsertStringAscending(s: string, sorted: seq<string>)
    requires Ascending(sorted)
    ensures Ascending(InsertString(s, sorted))
  {
    if sorted == [] {
    } else if Before(s, sorted[0]) {
      forall k | 0 <= k < |sorted|
        ensures Before(s, sorted[k])
      {
        BeforeTotal(s, sorted[0], sorted[k]);
      }
    } else {
      InsertStringAscending(s, sorted[1..]);
      var rest := InsertString(s, sorted[1..]);
      forall k | 0 <= k < |rest|
        ensures Before(sorted[0], rest[k])
      {
        assert rest[k] in multiset(rest);
        assert rest[k] == s || rest[k] in sorted[1..];
        BeforeTotal(s, sorted[0], s);
      }
    }
  }

  /** `sort` */
  function SortStrings(s: seq<string>): (r: seq<string>)
    ensures multiset(r) == multiset(s)
  {
    if s == [] then []
    else
      assert s == [s[0]] + s[1..];
      InsertString(s[0], SortStrings(s[1..]))
  }

  lemma {:induction false} SortStringsAscend(s: seq<string>)
    ensures Ascending(SortStrings(s))
  {
    if s != [] {
      SortStringsAscend(s[1..]);
      InsertStringAscending(s[0], SortStrings(s[1..]));
    }
  }

  /** One sorted order: the strings decide it, not the order they come in. */
  lemma {:induction false} SortStringsPermutes(a: seq<string>, b: seq<string>)
    requires multiset(a) == multiset(b)
    ensures SortStrings(a) == SortStrings(b)
  {
    SortStringsAscend(a);
    SortStringsAscend(b);
    AscendingUnique(SortStrings(a), SortStrings(b));
  }

  /** An ascending sequence is determined by its elements. */
  lemma {:induction false} AscendingUnique(a: seq<string>, b: seq<string>)
    requires multiset(a) == multiset(b) && Ascending(a) && Ascending(b)
    ensures a == b
  {
    SameElements(a, b);
    if a != [] {
      AscendingSameHead(a, b);
      TailsSame(a, b);
      AscendingUnique(a[1..], b[1..]);
      HeadAndTail(a, b);
    }
  }

  lemma {:induction false} AscendingSameHead(a: seq<string>, b: seq<string>)
    requires multiset(a) == multiset(b) && a != [] && b != [] && Ascending(a) && Ascending(b)
    ensures a[0] == b[0]
  {
    SameElements(a, b);
    assert a[0] in b && b[0] in a;
    var p :| 0 <= p < |b| && b[p] == a[0];
    var q :| 0 <= q < |a| && a[q] == b[0];
    BeforeTotal(a[0], b[0], a[0]);
  }

  ghost function SeqOf(m: multiset<string>): (r: seq<string>)
    ensures multiset(r) == m
    decreases |m|
  {
    if m == multiset{} then []
    else
      var x :| x in m;
      [x] + SeqOf(m - multiset{x})
  }

  /** The ascending sequence of the given elements. */
  ghost function Listing(m: multiset<string>): (r: seq<string>)
    ensures multiset(r) == m
  {
    SortStrings(SeqOf(m))
  }

  lemma {:induction false} ListingIs(s: seq<string>)
    ensures SortStrings(s) == Listing(multiset(s))
  {
    SortStringsPermutes(s, SeqOf(multiset(s)));
  }

  /** Ascending by scalar values, equal strings side by side. */
  ghost predicate Climbs(s: seq<string>) {
    forall i, j | 0 <= i < j < |s| :: s[i] == s[j] || TextPrecedes(s[i], s[j])
  }

  lemma {:induction false} SortStringsClimb(s: seq<string>)
    ensures Climbs(SortStrings(s))
  {
    SortStringsAscend(s);
    ClimbsIff(SortStrings(s));
  }

  lemma {:induction false} BeforeMeans(a: string, b: string)
    ensures Before(a, b) <==> a == b || TextPrecedes(a, b)
  {
    CompareScalarsTells(a, b);
    CompareEqual(Scalars(a), Scalars(b));
    if Scalars(a) == Scalars(b) {
      ScalarsInjective(a, b);
    }
  }

  lemma {:induction false} ClimbsIff(s: seq<string>)
    ensures Climbs(s) <==> Ascending(s)
  {
    forall i, j | 0 <= i < j < |s|
      ensures Before(s[i], s[j]) <==> s[i] == s[j] || TextPrecedes(s[i], s[j])
    {
      BeforeMeans(s[i], s[j]);
    }
  }
}
