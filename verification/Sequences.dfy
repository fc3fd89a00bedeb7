/** Facts about sequences that do not depend on what they hold. */
module Sequences {

  lemma {:induction false} ConcatAssoc<T>(a: seq<T>, b: seq<T>, c: seq<T>)
    ensures (a + b) + c == a + (b + c)
  {
  }

  lemma {:induction false} ConcatAssoc4<T>(a: seq<T>, b: seq<T>, c: seq<T>, d: seq<T>)
    ensures a + b + c + d == a + (b + (c + d)) == a + (b + c + d)
  {
    ConcatAssoc(b, c, d);
    ConcatAssoc(a, b, c);
    ConcatAssoc(a, b + c, d);
  }

  lemma {:induction false} PrefixTransitive<T>(a: seq<T>, b: seq<T>, c: seq<T>)
    requires a <= b <= c
    ensures a <= c
  {
  }

  lemma {:induction false} HeadAndTail<T>(a: seq<T>, b: seq<T>)
    requires a != [] && b != [] && a[0] == b[0] && a[1..] == b[1..]
    ensures a == b
  {
    assert a == [a[0]] + a[1..];
    assert b == [b[0]] + b[1..];
  }

  lemma {:induction false} InFrontOrLast<T>(s: seq<T>)
    requires s != []
    ensures forall x :: x in s <==> x in s[..|s| - 1] || x == s[|s| - 1]
  {
    assert s == s[..|s| - 1] + [s[|s| - 1]];
  }

  lemma {:induction false} SameElements<T>(a: seq<T>, b: seq<T>)
    requires multiset(a) == multiset(b)
    ensures |a| == |b|
    ensures forall x :: x in a <==> x in b
  {
    assert |multiset(a)| == |a| && |multiset(b)| == |b|;
    assert forall x :: x in a <==> x in multiset(a);
    assert forall x :: x in b <==> x in multiset(b);
  }

  lemma {:induction false} SnocCount<T>(s: seq<T>, y: T, x: T)
    ensures multiset(s + [y])[x] == multiset(s)[x] + if y == x then 1 else 0
  {
  }

  lemma {:induction false} InPermutation<T>(a: seq<T>, b: seq<T>, i: nat)
    requires multiset(a) == multiset(b) && i < |a|
    ensures a[i] in b
  {
    SameElements(a, b);
  }

  lemma {:induction false} TailsSame<T>(a: seq<T>, b: seq<T>)
    requires multiset(a) == multiset(b) && a != [] && b != [] && a[0] == b[0]
    ensures multiset(a[1..]) == multiset(b[1..])
  {
    assert a == [a[0]] + a[1..];
    assert b == [b[0]] + b[1..];
    assert multiset(a[1..]) == multiset(a) - multiset{a[0]};
    assert multiset(b[1..]) == multiset(b) - multiset{b[0]};
  }

  // ---- Taking one element out -----------------------------------------------------------

  /** The sequence without its element at `j`. */
  function Without<T>(s: seq<T>, j: nat): (r: seq<T>)
    requires j < |s|
    ensures |r| == |s| - 1
  {
    s[..j] + s[j + 1..]
  }

  lemma {:induction false} WithoutFirst<T>(s: seq<T>)
    requires s != []
    ensures Without(s, 0) == s[1..]
  {
  }

  lemma {:induction false} WithoutAt<T>(s: seq<T>, j: nat, k: nat)
    requires j < |s| && k < |s| - 1
    ensures Without(s, j)[k] == s[if k < j then k else k + 1]
  {
  }

  /** What holds of one element and of all the others holds of all. */
  lemma {:induction false} AllWithout<T>(p: T -> bool, s: seq<T>, j: nat)
    requires j < |s| && p(s[j])
    requires forall k | 0 <= k < |s| - 1 :: p(Without(s, j)[k])
    ensures forall i | 0 <= i < |s| :: p(s[i])
  {
    forall i | 0 <= i < |s| && i != j
      ensures p(s[i])
    {
      WithoutAt(s, j, if i < j then i else i - 1);
    }
  }

  lemma {:induction false} WithoutMultiset<T>(s: seq<T>, j: nat)
    requires j < |s|
    ensures multiset(s) == multiset(Without(s, j)) + multiset{s[j]}
  {
    assert s == s[..j] + [s[j]] + s[j + 1..];
  }

  /** Taking equal elements out of two sequences keeps them equal, or unequal, as multisets. */
  lemma {:induction false} WithoutSame<T>(x: seq<T>, i: nat, y: seq<T>, j: nat)
    requires i < |x| && j < |y| && x[i] == y[j]
    ensures multiset(x) == multiset(y) <==> multiset(Without(x, i)) == multiset(Without(y, j))
  {
    WithoutMultiset(x, i);
    WithoutMultiset(y, j);
    var p, q, m := multiset(Without(x, i)), multiset(Without(y, j)), multiset{x[i]};
    assert (p + m) - m == p && (q + m) - m == q;
  }

  // ---- Elementwise images ---------------------------------------------------------------

  ghost predicate Mapped<A, B>(f: A -> B, a: seq<A>, x: seq<B>) {
    |a| == |x| && forall i | 0 <= i < |a| :: x[i] == f(a[i])
  }

  lemma {:induction false} MappedUnique<A, B>(f: A -> B, a: seq<A>, x: seq<B>, y: seq<B>)
    requires Mapped(f, a, x) && Mapped(f, a, y)
    ensures x == y
  {
  }

  lemma {:induction false} MappedWithout<A, B>(f: A -> B, a: seq<A>, x: seq<B>, j: nat)
    requires Mapped(f, a, x) && j < |a|
    ensures Mapped(f, Without(a, j), Without(x, j))
  {
    forall k | 0 <= k < |a| - 1
      ensures Without(x, j)[k] == f(Without(a, j)[k])
    {
      WithoutAt(a, j, k);
      WithoutAt(x, j, k);
    }
  }

  /** Images of permutations are permutations. */
  lemma {:induction false} MappedPermute<A, B>(f: A -> B, a: seq<A>, x: seq<B>, b: seq<A>, y: seq<B>)
    requires Mapped(f, a, x) && Mapped(f, b, y) && multiset(a) == multiset(b)
    ensures multiset(x) == multiset(y)
    decreases |a|
  {
    SameElements(a, b);
    if a != [] {
      assert a[0] in b;
      var j :| 0 <= j < |b| && b[j] == a[0];
      MappedWithout(f, a, x, 0);
      MappedWithout(f, b, y, j);
      WithoutSame(a, 0, b, j);
      MappedPermute(f, Without(a, 0), Without(x, 0), Without(b, j), Without(y, j));
      WithoutSame(x, 0, y, j);
    }
  }

  // ---- Counting -------------------------------------------------------------------------

  function Count<T>(p: T -> bool, s: seq<T>): nat {
    if s == [] then 0 else Count(p, s[..|s| - 1]) + if p(s[|s| - 1]) then 1 else 0
  }

  lemma {:induction false} CountConcat<T>(p: T -> bool, a: seq<T>, b: seq<T>)
    ensures Count(p, a + b) == Count(p, a) + Count(p, b)
  {
    if b == [] {
      assert a + b == a;
    } else {
      var front := b[..|b| - 1];
      CountConcat(p, a, front);
      assert (a + b)[..|a + b| - 1] == a + front;
    }
  }

  lemma {:induction false} CountWithout<T>(p: T -> bool, s: seq<T>, j: nat)
    requires j < |s|
    ensures Count(p, s) == Count(p, Without(s, j)) + if p(s[j]) then 1 else 0
  {
    CountConcat(p, s[..j], s[j + 1..]);
    CountConcat(p, s[..j], [s[j]]);
    CountConcat(p, s[..j] + [s[j]], s[j + 1..]);
    assert s == s[..j] + [s[j]] + s[j + 1..];
    assert [s[j]][..0] == [];
  }

  lemma {:induction false} CountPermutes<T>(p: T -> bool, a: seq<T>, b: seq<T>)
    requires multiset(a) == multiset(b)
    ensures Count(p, a) == Count(p, b)
    decreases |a|
  {
    SameElements(a, b);
    if a != [] {
      assert a[0] in b;
      var j :| 0 <= j < |b| && b[j] == a[0];
      WithoutSame(a, 0, b, j);
      CountPermutes(p, Without(a, 0), Without(b, j));
      CountWithout(p, a, 0);
      CountWithout(p, b, j);
    }
  }

  // ---- Concatenated images --------------------------------------------------------------

  function FlatMap<A, B>(f: A -> seq<B>, s: seq<A>): seq<B> {
    if s == [] then [] else f(s[0]) + FlatMap(f, s[1..])
  }

  lemma {:induction false} FlatMapConcat<A, B>(f: A -> seq<B>, a: seq<A>, b: seq<A>)
    ensures FlatMap(f, a + b) == FlatMap(f, a) + FlatMap(f, b)
  {
    if a == [] {
      assert a + b == b;
    } else {
      FlatMapConcat(f, a[1..], b);
      assert (a + b)[1..] == a[1..] + b;
      ConcatAssoc(f(a[0]), FlatMap(f, a[1..]), FlatMap(f, b));
    }
  }

  lemma {:induction false} FlatMapSnoc<A, B>(f: A -> seq<B>, s: seq<A>, x: A)
    ensures FlatMap(f, s + [x]) == FlatMap(f, s) + f(x)
  {
    FlatMapConcat(f, s, [x]);
    FlatMapOne(f, x);
  }

  lemma {:induction false} FlatMapOne<A, B>(f: A -> seq<B>, x: A)
    ensures FlatMap(f, [x]) == f(x)
  {
    assert FlatMap(f, [x]) == f(x) + FlatMap(f, [x][1..]);
  }
}
