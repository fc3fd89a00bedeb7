/** UTF-16 code units, and the member-name order of section 3.2.3 of RFC 8785. */
module Utf16 {

  predicate IsScalar(n: int) {
    0 <= n < 0xD800 || 0xE000 <= n < 0x11_0000
  }

  predicate HighSurrogate(u: int) {
    0xD800 <= u <= 0xDBFF
  }

  predicate LowSurrogate(u: int) {
    0xDC00 <= u <= 0xDFFF
  }

  predicate Supplementary(c: char) {
    0x1_0000 <= c as int
  }

  /** One code unit for a scalar of the basic plane, a surrogate pair above it. */
  function Units(c: char): (u: seq<int>)
    ensures Supplementary(c) <==> |u| == 2
    ensures |u| == 2 ==> HighSurrogate(u[0]) && LowSurrogate(u[1])
    ensures |u| == 1 ==> !HighSurrogate(u[0]) && !LowSurrogate(u[0])
    ensures 1 <= |u| <= 2
  {
    var n := c as int;
    if n < 0x1_0000 then [n]
    else [0xD800 + (n - 0x1_0000) / 1024, 0xDC00 + (n - 0x1_0000) % 1024]
  }

  /** The scalar a surrogate pair stands for. */
  function Combine(high: int, low: int): (c: char)
    requires HighSurrogate(high) && LowSurrogate(low)
  {
    (0x1_0000 + (high - 0xD800) * 1024 + (low - 0xDC00)) as char
  }

  /** Combining undoes splitting, and splitting undoes combining. */
  lemma {:induction false} CombineInvertsUnits(c: char, high: int, low: int)
    requires HighSurrogate(high) && LowSurrogate(low)
    ensures Combine(high, low) == c <==> Units(c) == [high, low]
  {
    var n := 0x1_0000 + (high - 0xD800) * 1024 + (low - 0xDC00);
    assert (n - 0x1_0000) / 1024 == high - 0xD800;
    assert (n - 0x1_0000) % 1024 == low - 0xDC00;
  }

  /** What the code units of a scalar are, by the arithmetic of UTF-16. */
  lemma {:induction false} UnitsSpell(c: char)
    ensures c as int < 0x1_0000 ==> Units(c) == [c as int]
    ensures c as int >= 0x1_0000 ==>
              && |Units(c)| == 2 && 0xD800 <= Units(c)[0] < 0xDC00 && 0xDC00 <= Units(c)[1] < 0xE000
              && c as int == 0x1_0000 + 0x400 * (Units(c)[0] - 0xD800) + (Units(c)[1] - 0xDC00)
  {
  }

  function Encode(s: string): seq<int> {
    if s == [] then [] else Units(s[0]) + Encode(s[1..])
  }

  datatype Ordering = Less | Equal | Greater {
    function Reverse(): Ordering {
      match this
      case Less => Greater
      case Equal => Equal
      case Greater => Less
    }
  }

  function CompareInts(x: int, y: int): Ordering {
    if x < y then Less else if x > y then Greater else Equal
  }

  /** Lexicographic comparison of number sequences. */
  function Compare(a: seq<int>, b: seq<int>): Ordering {
    if a == [] && b == [] then Equal
    else if a == [] then Less
    else if b == [] then Greater
    else if a[0] == b[0] then Compare(a[1..], b[1..])
    else CompareInts(a[0], b[0])
  }

  /** Comparison by UTF-16 code units: the order of canonical member names. */
  function CompareNames(a: string, b: string): Ordering {
    Compare(Encode(a), Encode(b))
  }

  // ---- What comes before what -----------------------------------------------------------

  /** Up to `i` the sequences agree; there `a` ends while `b` goes on, or has the smaller number. */
  predicate DecidedAt(a: seq<int>, b: seq<int>, i: nat) {
    i <= |a| && i < |b| && a[..i] == b[..i] && (i < |a| ==> a[i] < b[i])
  }

  ghost predicate Precedes(a: seq<int>, b: seq<int>) {
    exists i: nat :: DecidedAt(a, b, i)
  }

  lemma {:induction false} DecidedInTail(a: seq<int>, b: seq<int>)
    requires a != [] && b != [] && a[0] == b[0]
    ensures Precedes(a, b) <==> Precedes(a[1..], b[1..])
  {
    if i: nat :| DecidedAt(a, b, i) {
      assert i != 0;
      assert a[1..][..i - 1] == a[..i][1..] && b[1..][..i - 1] == b[..i][1..];
      assert DecidedAt(a[1..], b[1..], i - 1);
    }
    if i: nat :| DecidedAt(a[1..], b[1..], i) {
      assert a[..i + 1] == [a[0]] + a[1..][..i] && b[..i + 1] == [b[0]] + b[1..][..i];
      assert DecidedAt(a, b, i + 1);
    }
  }

  lemma {:induction false} DecidedAtOnce(a: seq<int>, b: seq<int>)
    requires a == [] || b == [] || a[0] != b[0]
    ensures Precedes(a, b) <==> DecidedAt(a, b, 0)
  {
    if i: nat :| DecidedAt(a, b, i) {
      if i > 0 {
        SameFront(a, b, i);
        assert false;
      }
    }
  }

  lemma {:induction false} SameFront(a: seq<int>, b: seq<int>, i: nat)
    requires 0 < i <= |a| && i <= |b| && a[..i] == b[..i]
    ensures a[0] == b[0]
  {
    assert a[0] == a[..i][0];
  }

  /** The comparison says which sequence precedes the other. */
  lemma {:induction false} CompareTells(a: seq<int>, b: seq<int>)
    ensures Compare(a, b) == Less <==> Precedes(a, b)
    ensures Compare(a, b) == Greater <==> Precedes(b, a)
  {
    if a != [] && b != [] && a[0] == b[0] {
      CompareTells(a[1..], b[1..]);
      DecidedInTail(a, b);
      DecidedInTail(b, a);
    } else {
      DecidedAtOnce(a, b);
      DecidedAtOnce(b, a);
    }
  }

  /** `a` comes before `b` in the order of member names: by code units, smaller ones first. */
  ghost predicate NamePrecedes(a: string, b: string) {
    Precedes(Encode(a), Encode(b))
  }

  /** The loop over both code unit iterators. */
  method CmpUtf16(a: string, b: string) returns (r: Ordering)
    ensures r == CompareNames(a, b)
    ensures r == Less <==> NamePrecedes(a, b)
    ensures r == Greater <==> NamePrecedes(b, a)
  {
    var ai, bi := Encode(a), Encode(b);
    CompareTells(ai, bi);
    while true
      invariant Compare(ai, bi) == CompareNames(a, b)
      decreases |ai|
    {
      if ai != [] && bi != [] {
        var x, y := ai[0], bi[0];
        ai, bi := ai[1..], bi[1..];
        match CompareInts(x, y) {
          case Equal =>
          case other => return other;
        }
      } else if ai != [] {
        return Greater;
      } else if bi != [] {
        return Less;
      } else {
        return Equal;
      }
    }
  }

  // ---- Lexicographic comparison is a total order ----------------------------------------

  lemma {:induction false} CompareEqual(a: seq<int>, b: seq<int>)
    ensures Compare(a, b) == Equal <==> a == b
  {
    if a != [] && b != [] {
      CompareEqual(a[1..], b[1..]);
      assert a == [a[0]] + a[1..] && b == [b[0]] + b[1..];
    }
  }

  lemma {:induction false} CompareReverse(a: seq<int>, b: seq<int>)
    ensures Compare(b, a) == Compare(a, b).Reverse()
  {
    if a != [] && b != [] {
      CompareReverse(a[1..], b[1..]);
    }
  }

  lemma {:induction false} CompareTransitive(a: seq<int>, b: seq<int>, c: seq<int>)
    requires Compare(a, b) == Less && Compare(b, c) == Less
    ensures Compare(a, c) == Less
  {
    if a != [] && b != [] && c != [] && a[0] == b[0] == c[0] {
      CompareTransitive(a[1..], b[1..], c[1..]);
    }
  }

  /** A common beginning does not matter. */
  lemma {:induction false} CompareCommonPrefix(p: seq<int>, a: seq<int>, b: seq<int>)
    ensures Compare(p + a, p + b) == Compare(a, b)
  {
    if p == [] {
      assert p + a == a && p + b == b;
    } else {
      CompareCommonPrefix(p[1..], a, b);
      assert (p + a)[1..] == p[1..] + a && (p + b)[1..] == p[1..] + b;
    }
  }

  // ---- UTF-16 order on strings ----------------------------------------------------------

  lemma {:induction false} UnitsInjective(c: char, d: char)
    requires Units(c) == Units(d)
    ensures c == d
  {
    if Supplementary(c) {
      CombineInvertsUnits(c, Units(c)[0], Units(c)[1]);
      CombineInvertsUnits(d, Units(d)[0], Units(d)[1]);
    }
  }

  /** Different scalars differ within their code units, so the rest of a string is never reached. */
  lemma {:induction false} FirstScalarDecides(c: char, x: seq<int>, d: char, y: seq<int>)
    requires c != d
    ensures Compare(Units(c) + x, Units(d) + y) == Compare(Units(c), Units(d)) != Equal
  {
    var u, v := Units(c), Units(d);
    assert u != v by { if u == v { UnitsInjective(c, d); } }
    if u[0] == v[0] {
      assert |u| == |v| == 2;
      assert (u + x)[1..] == [u[1]] + x && (v + y)[1..] == [v[1]] + y;
      assert u == [u[0], u[1]] && v == [v[0], v[1]];
      assert u[1..] == [u[1]] && v[1..] == [v[1]];
    }
  }

  /** Only equal strings compare as equal. */
  lemma {:induction false} CompareNamesEqual(a: string, b: string)
    ensures CompareNames(a, b) == Equal <==> a == b
  {
    if a == [] || b == [] {
    } else if a[0] == b[0] {
      CompareCommonPrefix(Units(a[0]), Encode(a[1..]), Encode(b[1..]));
      CompareNamesEqual(a[1..], b[1..]);
      assert a == [a[0]] + a[1..] && b == [b[0]] + b[1..];
    } else {
      FirstScalarDecides(a[0], Encode(a[1..]), b[0], Encode(b[1..]));
    }
  }

  /** The member-name order is a strict total order on strings. */
  lemma {:induction false} NameOrderTotal(a: string, b: string, c: string)
    ensures CompareNames(a, b) == Equal <==> a == b
    ensures CompareNames(b, a) == CompareNames(a, b).Reverse()
    ensures CompareNames(a, b) == Less && CompareNames(b, c) == Less ==> CompareNames(a, c) == Less
  {
    CompareNamesEqual(a, b);
    CompareReverse(Encode(a), Encode(b));
    if CompareNames(a, b) == Less && CompareNames(b, c) == Less {
      CompareTransitive(Encode(a), Encode(b), Encode(c));
    }
  }

  // ---- UTF-16 order against scalar-value order ------------------------------------------

  function Scalars(s: string): seq<int> {
    seq(|s|, i requires 0 <= i < |s| => s[i] as int)
  }

  lemma {:induction false} ScalarsInjective(a: string, b: string)
    requires Scalars(a) == Scalars(b)
    ensures a == b
  {
    assert |a| == |Scalars(a)| == |b|;
    forall i | 0 <= i < |a|
      ensures a[i] == b[i]
    {
      assert Scalars(a)[i] == Scalars(b)[i];
    }
  }

  /** Comparison by scalar values, the order of Rust's `str`. */
  function CompareScalars(a: string, b: string): Ordering {
    Compare(Scalars(a), Scalars(b))
  }

  /** `a` comes before `b` by scalar values, smaller ones first. */
  ghost predicate TextPrecedes(a: string, b: string) {
    exists i: nat ::
      i <= |a| && i < |b| && a[..i] == b[..i] && (i < |a| ==> a[i] as int < b[i] as int)
  }

  lemma {:induction false} CompareScalarsTells(a: string, b: string)
    ensures CompareScalars(a, b) == Less <==> TextPrecedes(a, b)
    ensures CompareScalars(a, b) == Greater <==> TextPrecedes(b, a)
  {
    CompareTells(Scalars(a), Scalars(b));
    TextPrecedesIff(a, b);
    TextPrecedesIff(b, a);
  }

  lemma {:induction false} TextPrecedesIff(a: string, b: string)
    ensures TextPrecedes(a, b) <==> Precedes(Scalars(a), Scalars(b))
  {
    if i: nat :| i <= |a| && i < |b| && a[..i] == b[..i] && (i < |a| ==> a[i] as int < b[i] as int) {
      assert Scalars(a)[..i] == Scalars(a[..i]) && Scalars(b)[..i] == Scalars(b[..i]);
      assert DecidedAt(Scalars(a), Scalars(b), i);
    }
    if i: nat :| DecidedAt(Scalars(a), Scalars(b), i) {
      assert Scalars(a)[..i] == Scalars(a[..i]) && Scalars(b)[..i] == Scalars(b[..i]);
      ScalarsInjective(a[..i], b[..i]);
      assert i <= |a| && i < |b| && a[..i] == b[..i] && (i < |a| ==> a[i] as int < b[i] as int);
    }
  }

  /** A scalar above the surrogates in the basic plane. */
  predicate HighBasic(c: char) {
    0xE000 <= c as int < 0x1_0000
  }

  predicate Swapped(c: char, d: char) {
    (Supplementary(c) && HighBasic(d)) || (HighBasic(c) && Supplementary(d))
  }

  ghost predicate FirstDifference(a: string, b: string, i: nat) {
    i < |a| && i < |b| && a[..i] == b[..i] && a[i] != b[i]
  }

  lemma {:induction false} OneScalar(c: char, d: char)
    requires c != d
    ensures Compare(Units(c), Units(d)) != CompareInts(c as int, d as int) <==> Swapped(c, d)
  {
    var u, v := Units(c), Units(d);
    if |u| == 2 && |v| == 2 {
      assert u[1..] == [u[1]] && v[1..] == [v[1]];
      CombineInvertsUnits(c, u[0], u[1]);
      CombineInvertsUnits(d, v[0], v[1]);
      assert u[1..][1..] == [] && v[1..][1..] == [];
    }
  }

  /**
   Code-unit order and scalar order disagree exactly when the first scalars that differ are one
   supplementary and one from U+E000 to U+FFFF.
   */
  lemma {:induction false} OrdersDifferIff(a: string, b: string)
    ensures CompareNames(a, b) != CompareScalars(a, b)
       <==> exists i: nat :: FirstDifference(a, b, i) && Swapped(a[i], b[i])
  {
    if a == [] || b == [] {
    } else if a[0] == b[0] {
      CompareCommonPrefix(Units(a[0]), Encode(a[1..]), Encode(b[1..]));
      assert Scalars(a)[1..] == Scalars(a[1..]) && Scalars(b)[1..] == Scalars(b[1..]);
      OrdersDifferIff(a[1..], b[1..]);
      DifferenceInTail(a, b);
    } else {
      FirstScalarDecides(a[0], Encode(a[1..]), b[0], Encode(b[1..]));
      OneScalar(a[0], b[0]);
      assert FirstDifference(a, b, 0);
      assert forall i: nat :: FirstDifference(a, b, i) ==> i == 0 || a[..i][0] == b[..i][0];
    }
  }

  lemma {:induction false} DifferenceInTail(a: string, b: string)
    requires a != [] && b != [] && a[0] == b[0]
    ensures (exists i: nat :: FirstDifference(a, b, i) && Swapped(a[i], b[i]))
       <==> exists i: nat :: FirstDifference(a[1..], b[1..], i) && Swapped(a[1..][i], b[1..][i])
  {
    var x, y := a[1..], b[1..];
    if i: nat :| FirstDifference(a, b, i) && Swapped(a[i], b[i]) {
      assert i != 0 && x[..i - 1] == a[..i][1..] && y[..i - 1] == b[..i][1..];
      assert FirstDifference(x, y, i - 1);
    }
    if i: nat :| FirstDifference(x, y, i) && Swapped(x[i], y[i]) {
      assert a[..i + 1] == [a[0]] + x[..i] && b[..i + 1] == [b[0]] + y[..i];
      assert FirstDifference(a, b, i + 1);
    }
  }
}
