/**
 * The comparator library of `src/utils.ts`: case-insensitive text
 * comparators over a key extracted from each object.
 *
 * JavaScript's `toUpperCase` is modelled on ASCII letters, and string `<` as
 * the lexicographic order on characters (a proper prefix is smaller).
 */
module Comparators {
  import opened Sorting

  /** ASCII upper-casing of one character; every other character is kept. */
  function UpperChar(c: char): (u: char)
    ensures 'a' <= c <= 'z' ==> u as int == c as int - 32
    ensures !('a' <= c <= 'z') ==> u == c
  {
    if 'a' <= c <= 'z' then (c as int - 32) as char else c
  }

  /** `s.toUpperCase()` on ASCII text. */
  function Upper(s: string): (u: string)
    ensures |u| == |s|
    ensures forall i :: 0 <= i < |s| ==> u[i] == UpperChar(s[i])
  {
    seq(|s|, i requires 0 <= i < |s| => UpperChar(s[i]))
  }

  /** JavaScript's `a < b` on strings: lexicographic, a proper prefix first. */
  predicate Less(a: string, b: string)
  {
    if |a| == 0 then |b| > 0
    else if |b| == 0 then false
    else if a[0] != b[0] then a[0] < b[0]
    else Less(a[1..], b[1..])
  }

  lemma {:induction false} LessIrreflexive(a: string)
    ensures !Less(a, a)
  {
    if |a| > 0 {
      LessIrreflexive(a[1..]);
    }
  }

  /** Exactly one of `a < b`, `a == b`, `b < a` holds. */
  lemma {:induction false} LessTrichotomy(a: string, b: string)
    ensures a == b || Less(a, b) || Less(b, a)
    ensures !(Less(a, b) && Less(b, a))
    ensures a == b ==> !Less(a, b)
  {
    if |a| > 0 && |b| > 0 && a[0] == b[0] {
      LessTrichotomy(a[1..], b[1..]);
      if a[1..] == b[1..] {
        assert a == [a[0]] + a[1..] && b == [b[0]] + b[1..];
      }
    }
    if a == b {
      LessIrreflexive(a);
    }
  }

  lemma {:induction false} LessTransitive(a: string, b: string, c: string)
    requires Less(a, b) && Less(b, c)
    ensures Less(a, c)
  {
    if |a| > 0 && |b| > 0 && |c| > 0 && a[0] == b[0] && b[0] == c[0] {
      LessTransitive(a[1..], b[1..], c[1..]);
    }
  }

  /**
   * `byTextAscending(key)(a, b)`: -1 when the upper-cased key of `a` comes
   * first, 1 when it comes last, 0 when the two upper-cased keys are equal.
   */
  function ByTextAscending<T>(key: T -> string, a: T, b: T): (r: int)
    ensures r == -1 <==> Less(Upper(key(a)), Upper(key(b)))
    ensures r == 1 <==> Less(Upper(key(b)), Upper(key(a)))
    ensures r == 0 <==> Upper(key(a)) == Upper(key(b))
  {
    var ua, ub := Upper(key(a)), Upper(key(b));
    LessTrichotomy(ua, ub);
    if Less(ua, ub) then -1
    else if Less(ub, ua) then 1
    else 0
  }

  /** `byTextDescending(key)(a, b)`: the opposite order. */
  function ByTextDescending<T>(key: T -> string, a: T, b: T): (r: int)
    ensures r == -1 <==> Less(Upper(key(b)), Upper(key(a)))
    ensures r == 1 <==> Less(Upper(key(a)), Upper(key(b)))
    ensures r == 0 <==> Upper(key(a)) == Upper(key(b))
  {
    var ua, ub := Upper(key(a)), Upper(key(b));
    LessTrichotomy(ua, ub);
    if Less(ub, ua) then -1
    else if Less(ua, ub) then 1
    else 0
  }

  /** Both comparators only ever answer -1, 0 or 1. */
  lemma ResultsAreSigns<T>(key: T -> string, a: T, b: T)
    ensures ByTextAscending(key, a, b) in {-1, 0, 1}
    ensures ByTextDescending(key, a, b) in {-1, 0, 1}
  {
    LessTrichotomy(Upper(key(a)), Upper(key(b)));
  }

  /** Descending is ascending with its arguments swapped. */
  lemma DescendingIsSwappedAscending<T>(key: T -> string, a: T, b: T)
    ensures ByTextDescending(key, a, b) == ByTextAscending(key, b, a)
  {
    LessTrichotomy(Upper(key(a)), Upper(key(b)));
  }

  /** Swapping the arguments negates the answer; an object equals itself. */
  lemma AscendingAntisymmetric<T>(key: T -> string, a: T, b: T)
    ensures ByTextAscending(key, a, b) == -ByTextAscending(key, b, a)
    ensures ByTextAscending(key, a, a) == 0
  {
    LessTrichotomy(Upper(key(a)), Upper(key(b)));
  }

  /** Non-strict order of the ascending comparator is transitive. */
  lemma AscendingTransitive<T>(key: T -> string, a: T, b: T, c: T)
    requires ByTextAscending(key, a, b) <= 0 && ByTextAscending(key, b, c) <= 0
    ensures ByTextAscending(key, a, c) <= 0
  {
    var ua, ub, uc := Upper(key(a)), Upper(key(b)), Upper(key(c));
    if Less(ua, ub) && Less(ub, uc) {
      LessTransitive(ua, ub, uc);
    }
    LessTrichotomy(ua, uc);
  }

  /** Keys that differ only in ASCII letter case compare as equal. */
  lemma CaseInsensitive<T>(key: T -> string, a: T, b: T)
    requires |key(a)| == |key(b)|
    requires forall i :: 0 <= i < |key(a)| ==> UpperChar(key(a)[i]) == UpperChar(key(b)[i])
    ensures ByTextAscending(key, a, b) == 0
    ensures ByTextDescending(key, a, b) == 0
  {
    assert Upper(key(a)) == Upper(key(b));
  }

  /** `byTextAscending` is a consistent comparator, whatever the key. */
  lemma AscendingIsOrdering<T(!new)>(key: T -> string)
    ensures IsOrdering((a: T, b: T) => ByTextAscending(key, a, b))
  {
    var cmp := (a: T, b: T) => ByTextAscending(key, a, b);
    forall a, b
      ensures cmp(a, b) < 0 <==> cmp(b, a) > 0
    {
      AscendingAntisymmetric(key, a, b);
    }
    forall a, b, c | NotAfter(cmp, a, b) && NotAfter(cmp, b, c)
      ensures NotAfter(cmp, a, c)
    {
      AscendingTransitive(key, a, b, c);
    }
  }

  /** So is `byTextDescending`. */
  lemma DescendingIsOrdering<T(!new)>(key: T -> string)
    ensures IsOrdering((a: T, b: T) => ByTextDescending(key, a, b))
  {
    var cmp := (a: T, b: T) => ByTextDescending(key, a, b);
    forall a, b
      ensures cmp(a, b) < 0 <==> cmp(b, a) > 0
    {
      AscendingAntisymmetric(key, a, b);
      DescendingIsSwappedAscending(key, a, b);
      DescendingIsSwappedAscending(key, b, a);
    }
    forall a, b, c | NotAfter(cmp, a, b) && NotAfter(cmp, b, c)
      ensures NotAfter(cmp, a, c)
    {
      DescendingIsSwappedAscending(key, a, b);
      DescendingIsSwappedAscending(key, b, c);
      DescendingIsSwappedAscending(key, a, c);
      AscendingTransitive(key, c, b, a);
    }
  }
}
