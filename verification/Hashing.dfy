/** Descriptor and catalog hashes over an abstract hash identifier. */
module Hashing {
  import opened Results
  import opened Sequences
  import opened Values
  import opened Printer
  import opened SerdePath
  import opened StringSort
  import RoundTrip

  const NUL: char := 0 as char

  predicate NulFree(s: string) {
    forall i | 0 <= i < |s| :: s[i] != NUL
  }

  /**
   `hash_id`: `sha256:` and the digest in base64url, as a function of the hashed text. All that is
   always assumed of it is that identifiers hold no NUL; that different texts get different
   identifiers is assumed only where a lemma says so.
   */
  datatype HashModel = HashModel(id: string -> string) {
    ghost predicate Valid() {
      forall s :: NulFree(id(s))
    }

    ghost predicate CollisionFree() {
      forall s, t :: id(s) == id(t) ==> s == t
    }
  }

  type Hashes = h: HashModel | h.Valid() witness HashModel(s => "")

  function DescriptorHash(h: Hashes, value: SerdeValue): Result<string> {
    var text :- Canonicalized(ToJcs(value));
    Ok(h.id(text))
  }

  method HashDescriptor(h: Hashes, value: SerdeValue) returns (r: Result<string>)
    ensures r == DescriptorHash(h, value)
  {
    var text := CanonicalizeJsonValue(value);
    return if text.Ok? then Ok(h.id(text.value)) else Err(text.error);
  }

  /** The byte stream the catalog hasher is fed: every hash followed by a NUL. */
  function Joined(hashes: seq<string>): (r: string)
    ensures hashes != [] ==> r != ""
  {
    if hashes == [] then "" else hashes[0] + ([NUL] + Joined(hashes[1..]))
  }

  function CatalogHash(h: Hashes, hashes: seq<string>): string {
    h.id(Joined(SortStrings(hashes)))
  }

  /** `catalog_hash`: sort, then feed the hasher. */
  method HashCatalog(h: Hashes, hashes: seq<string>) returns (r: string)
    ensures r == CatalogHash(h, hashes)
  {
    var sorted := SortStrings(hashes);
    var fed := "";
    for i := 0 to |sorted|
      invariant fed + Joined(sorted[i..]) == Joined(sorted)
    {
      ghost var before := fed;
      fed := fed + sorted[i];
      fed := fed + [NUL];
      assert sorted[i..][1..] == sorted[i + 1..];
      ConcatAssoc(before, sorted[i], [NUL]);
      ConcatAssoc4(before, sorted[i], [NUL], Joined(sorted[i + 1..]));
    }
    assert fed + "" == fed;
    return h.id(fed);
  }

  function FirstNul(s: string): nat {
    if s == "" || s[0] == NUL then 0 else 1 + FirstNul(s[1..])
  }

  lemma {:induction false} FirstNulBehind(a: string, x: string)
    requires NulFree(a)
    ensures FirstNul(a + ([NUL] + x)) == |a|
  {
    if a == "" {
      assert a + ([NUL] + x) == [NUL] + x;
    } else {
      FirstNulBehind(a[1..], x);
      assert (a + ([NUL] + x))[1..] == a[1..] + ([NUL] + x);
    }
  }

  /** A NUL-free beginning up to the first NUL is determined by the text. */
  lemma {:induction false} SplitAtNul(a: string, x: string, b: string, y: string)
    requires NulFree(a) && NulFree(b)
    requires a + ([NUL] + x) == b + ([NUL] + y)
    ensures a == b && x == y
  {
    var s := a + ([NUL] + x);
    FirstNulBehind(a, x);
    FirstNulBehind(b, y);
    assert a == s[..|a|] && b == s[..|a|];
    assert x == s[|a| + 1..] && y == s[|a| + 1..];
  }

  ghost predicate AllNulFree(hashes: seq<string>) {
    forall i | 0 <= i < |hashes| :: NulFree(hashes[i])
  }

  /** The join can be taken apart again: no two lists of identifiers give the same stream. */
  lemma {:induction false} JoinedInjective(a: seq<string>, b: seq<string>)
    requires AllNulFree(a) && AllNulFree(b) && Joined(a) == Joined(b)
    ensures a == b
  {
    if a != [] {
      SplitAtNul(a[0], Joined(a[1..]), b[0], Joined(b[1..]));
      JoinedInjective(a[1..], b[1..]);
      assert a == [a[0]] + a[1..] && b == [b[0]] + b[1..];
    }
  }

  lemma {:induction false} AllNulFreeSorted(hashes: seq<string>)
    requires AllNulFree(hashes)
    ensures AllNulFree(SortStrings(hashes))
  {
    forall k | 0 <= k < |SortStrings(hashes)|
      ensures NulFree(SortStrings(hashes)[k])
    {
      assert SortStrings(hashes)[k] in multiset(hashes);
    }
  }

  /** The catalog hash does not depend on the order of the descriptors. */
  lemma {:induction false} CatalogHashPermutes(h: Hashes, a: seq<string>, b: seq<string>)
    requires multiset(a) == multiset(b)
    ensures CatalogHash(h, a) == CatalogHash(h, b)
  {
    SortStringsPermutes(a, b);
  }

  /** Without collisions it tells any two collections of descriptor hashes apart. */
  lemma {:induction false} CatalogHashIff(h: Hashes, a: seq<string>, b: seq<string>)
    requires h.CollisionFree() && AllNulFree(a) && AllNulFree(b)
    ensures CatalogHash(h, a) == CatalogHash(h, b) <==> multiset(a) == multiset(b)
  {
    if multiset(a) == multiset(b) {
      CatalogHashPermutes(h, a, b);
    }
    if CatalogHash(h, a) == CatalogHash(h, b) {
      AllNulFreeSorted(a);
      AllNulFreeSorted(b);
      JoinedInjective(SortStrings(a), SortStrings(b));
    }
  }

  /** Without collisions, descriptors share a hash exactly when they mean the same. */
  lemma {:induction false} DescriptorHashIff(h: Hashes, a: SerdeValue, b: SerdeValue)
    requires h.CollisionFree() && DescriptorHash(h, a).Ok? && DescriptorHash(h, b).Ok?
    ensures DescriptorHash(h, a) == DescriptorHash(h, b) <==> SameMeaning(ToJcs(a), ToJcs(b))
  {
    RoundTrip.CanonicalTextNamesMeaning(ToJcs(a), ToJcs(b));
  }

  lemma {:induction false} JoinedIs(hashes: seq<string>)
    ensures Joined(hashes) == FlatMap((x: string) => x + [0 as char], hashes)
  {
    if hashes != [] {
      JoinedIs(hashes[1..]);
      ConcatAssoc(hashes[0], [NUL], Joined(hashes[1..]));
    }
  }

  /** The catalog hash is that of the hashes in ascending order, each with a NUL behind it. */
  lemma {:induction false} CatalogHashIs(h: Hashes, hashes: seq<string>, sorted: seq<string>)
    requires multiset(sorted) == multiset(hashes) && Climbs(sorted)
    ensures CatalogHash(h, hashes) == h.id(FlatMap((x: string) => x + [0 as char], sorted))
  {
    ClimbsIff(sorted);
    SortStringsAscend(hashes);
    AscendingUnique(sorted, SortStrings(hashes));
    JoinedIs(sorted);
  }

  /** The descriptor hash is that of the canonical text, and there is none without one. */
  lemma {:induction false} DescriptorHashIs(h: Hashes, value: SerdeValue)
    ensures DescriptorHash(h, value)
         == if Printable(ToJcs(value)) then Ok(h.id(CanonicalText(ToJcs(value)))) else Err(Canonicalization)
  {
  }
}
