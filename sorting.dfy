/**
 * `Array.prototype.sort` with a comparator, as `getSortedData` uses it
 * (src/hooks.ts:400-403): a stable sort. The specification is a functional
 * insertion sort, `SortBy`; `SortInPlace` sorts an array in place and is
 * proved to produce exactly `SortBy` of the array's old contents.
 */
module Sorting {

  /** A three-way comparator: negative, zero or positive. */
  type Comparator<-T> = (T, T) -> int

  /**
   * A comparator that orders consistently: swapping the arguments swaps the
   * sign, and "not after" is transitive.
   */
  ghost predicate IsOrdering<T(!new)>(cmp: Comparator<T>)
  {
    && (forall a, b :: cmp(a, b) < 0 <==> cmp(b, a) > 0)
    && (forall a, b, c :: NotAfter(cmp, a, b) && NotAfter(cmp, b, c) ==> NotAfter(cmp, a, c))
  }

  /** `a` may stand before `b`. */
  ghost predicate NotAfter<T>(cmp: Comparator<T>, a: T, b: T)
  {
    cmp(a, b) <= 0
  }

  /** No element comes after a later one. */
  ghost predicate SortedBy<T>(s: seq<T>, cmp: Comparator<T>)
  {
    forall i, j :: 0 <= i < j < |s| ==> cmp(s[i], s[j]) <= 0
  }

  /** The comparator with every answer negated (`result * -1`). */
  function Negated<T(!new)>(cmp: Comparator<T>): (neg: Comparator<T>)
    ensures forall a, b :: neg(a, b) == -cmp(a, b)
  {
    (a, b) => cmp(a, b) * -1
  }

  /**
   * Where insertion sort puts `x` into `s`: behind every element that is not
   * after it, scanning from the right.
   */
  function InsertPos<T>(s: seq<T>, x: T, cmp: Comparator<T>): (k: nat)
    ensures k <= |s|
    ensures forall m :: k <= m < |s| ==> cmp(s[m], x) > 0
    ensures k > 0 ==> cmp(s[k - 1], x) <= 0
    decreases |s|
  {
    if s == [] then 0
    else if cmp(s[|s| - 1], x) > 0 then InsertPos(s[..|s| - 1], x, cmp)
    else |s|
  }

  /** The two facts that `InsertPos` ensures pin it down. */
  lemma {:induction false} InsertPosUnique<T>(s: seq<T>, x: T, cmp: Comparator<T>, j: nat)
    requires j <= |s|
    requires forall m :: j <= m < |s| ==> cmp(s[m], x) > 0
    requires j > 0 ==> cmp(s[j - 1], x) <= 0
    ensures InsertPos(s, x, cmp) == j
    decreases |s|
  {
    if j < |s| {
      InsertPosUnique(s[..|s| - 1], x, cmp, j);
    }
  }

  /** Inserts `x` into `s` at `InsertPos`, as one step of insertion sort. */
  function Insert<T>(s: seq<T>, x: T, cmp: Comparator<T>): (r: seq<T>)
    ensures |r| == |s| + 1
    ensures r[InsertPos(s, x, cmp)] == x
    ensures forall i :: 0 <= i < InsertPos(s, x, cmp) ==> r[i] == s[i]
    ensures forall i :: InsertPos(s, x, cmp) < i < |r| ==> r[i] == s[i - 1]
  {
    var k := InsertPos(s, x, cmp);
    s[..k] + [x] + s[k..]
  }

  lemma InsertPermutes<T>(s: seq<T>, x: T, cmp: Comparator<T>)
    ensures multiset(Insert(s, x, cmp)) == multiset(s) + multiset{x}
  {
    var k := InsertPos(s, x, cmp);
    assert s == s[..k] + s[k..];
  }

  /** Stable insertion sort: each element is inserted into the sorted prefix. */
  function SortBy<T>(s: seq<T>, cmp: Comparator<T>): seq<T>
    decreases |s|
  {
    if s == [] then [] else Insert(SortBy(s[..|s| - 1], cmp), s[|s| - 1], cmp)
  }

  /** Sorting yields a permutation of its input. */
  lemma {:induction false} SortByPermutes<T>(s: seq<T>, cmp: Comparator<T>)
    ensures multiset(SortBy(s, cmp)) == multiset(s)
    decreases |s|
  {
    if s != [] {
      var init, last := s[..|s| - 1], s[|s| - 1];
      assert s == init + [last];
      SortByPermutes(init, cmp);
      InsertPermutes(SortBy(init, cmp), last, cmp);
    }
  }

  lemma SortByLength<T>(s: seq<T>, cmp: Comparator<T>)
    ensures |SortBy(s, cmp)| == |s|
  {
    SortByPermutes(s, cmp);
    assert |multiset(SortBy(s, cmp))| == |multiset(s)|;
  }

  lemma OrderingFlip<T(!new)>(cmp: Comparator<T>, a: T, b: T)
    requires IsOrdering(cmp) && cmp(a, b) > 0
    ensures cmp(b, a) <= 0
  {
  }

  lemma OrderingTrans<T(!new)>(cmp: Comparator<T>, a: T, b: T, c: T)
    requires IsOrdering(cmp) && cmp(a, b) <= 0 && cmp(b, c) <= 0
    ensures cmp(a, c) <= 0
  {
    assert NotAfter(cmp, a, b) && NotAfter(cmp, b, c);
  }

  lemma InsertSorted<T(!new)>(s: seq<T>, x: T, cmp: Comparator<T>)
    requires IsOrdering(cmp) && SortedBy(s, cmp)
    ensures SortedBy(Insert(s, x, cmp), cmp)
  {
    var k := InsertPos(s, x, cmp);
    var r := Insert(s, x, cmp);
    forall i, j | 0 <= i < j < |r|
      ensures cmp(r[i], r[j]) <= 0
    {
      if j < k {
      } else if j == k {
        if i < k - 1 {
          OrderingTrans(cmp, s[i], s[k - 1], x);
        }
      } else if i == k {
        OrderingFlip(cmp, s[j - 1], x);
      }
    }
  }

  /** With a consistent comparator, the result is ordered. */
  lemma {:induction false} SortBySorted<T(!new)>(s: seq<T>, cmp: Comparator<T>)
    requires IsOrdering(cmp)
    ensures SortedBy(SortBy(s, cmp), cmp)
    decreases |s|
  {
    if s != [] {
      SortBySorted(s[..|s| - 1], cmp);
      InsertSorted(SortBy(s[..|s| - 1], cmp), s[|s| - 1], cmp);
    }
  }

  /** Negating a consistent comparator gives a consistent comparator. */
  lemma NegatedIsOrdering<T(!new)>(cmp: Comparator<T>)
    requires IsOrdering(cmp)
    ensures IsOrdering(Negated(cmp))
  {
    var neg := Negated(cmp);
    forall a, b, c | NotAfter(neg, a, b) && NotAfter(neg, b, c)
      ensures NotAfter(neg, a, c)
    {
      OrderingTrans(cmp, c, b, a);
    }
  }

  /**
   * An element that comes strictly before every other element of `s` is
   * the first of the sorted result.
   */
  lemma SortByLeastFirst<T(!new)>(s: seq<T>, cmp: Comparator<T>, k: nat)
    requires IsOrdering(cmp) && k < |s|
    requires forall j :: 0 <= j < |s| && j != k ==> cmp(s[k], s[j]) < 0
    ensures |SortBy(s, cmp)| > 0 && SortBy(s, cmp)[0] == s[k]
  {
    var r := SortBy(s, cmp);
    SortByPermutes(s, cmp);
    SortBySorted(s, cmp);
    assert s[k] in multiset(r);
    var i :| 0 <= i < |r| && r[i] == s[k];
    assert r[0] in multiset(s);
    var j :| 0 <= j < |s| && s[j] == r[0];
  }

  /** Sorting one more element inserts it into the sorted prefix. */
  lemma SortByStep<T>(s: seq<T>, i: nat, cmp: Comparator<T>)
    requires i < |s|
    ensures SortBy(s[..i + 1], cmp) == Insert(SortBy(s[..i], cmp), s[i], cmp)
  {
    assert s[..i + 1][..i] == s[..i];
  }

  /**
   * One step of insertion sort: moves `a[i]` left past every element of the
   * sorted prefix `a[..i]` that comes after it.
   */
  method InsertLast<T>(a: array<T>, i: nat, cmp: Comparator<T>)
    requires i < a.Length
    modifies a
    ensures a[..i + 1] == Insert(old(a[..i]), old(a[i]), cmp)
    ensures forall m :: i < m < a.Length ==> a[m] == old(a[m])
  {
    var x := a[i];
    ghost var prefix := a[..i];
    var j := i;
    while j > 0 && cmp(a[j - 1], x) > 0
      invariant 0 <= j <= i
      invariant forall m :: 0 <= m < j ==> a[m] == prefix[m]
      invariant forall m :: j < m <= i ==> a[m] == prefix[m - 1]
      invariant forall m :: i < m < a.Length ==> a[m] == old(a[m])
      invariant forall m :: j <= m < i ==> cmp(prefix[m], x) > 0
    {
      a[j] := a[j - 1];
      j := j - 1;
    }
    a[j] := x;
    InsertPosUnique(prefix, x, cmp, j);
    ghost var r := Insert(prefix, x, cmp);
    forall m | 0 <= m <= i
      ensures a[m] == r[m]
    {
    }
    assert a[..i + 1] == r;
  }

  /**
   * Sorts `a` in place by insertion; the result is `SortBy` of the old
   * contents, so it is a permutation (`SortByPermutes`) and ordered for a
   * consistent comparator (`SortBySorted`).
   */
  method SortInPlace<T>(a: array<T>, cmp: Comparator<T>)
    modifies a
    ensures a[..] == SortBy(old(a[..]), cmp)
  {
    ghost var input := a[..];
    var i := 0;
    while i < a.Length
      invariant 0 <= i <= a.Length
      invariant a[..i] == SortBy(input[..i], cmp)
      invariant forall m :: i <= m < a.Length ==> a[m] == input[m]
    {
      SortByStep(input, i, cmp);
      InsertLast(a, i, cmp);
      i := i + 1;
    }
    assert input[..a.Length] == input;
  }
}
