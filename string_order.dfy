/**
  The order in which the repager sorts entry names: Python's ordinal comparison
  of `str` values (code point by code point, a proper prefix before any longer
  string), and the sort that `sorted(...)` applies to an archive's name list.
  Sorting is by code point, not "natural" numeric order: "page10.jpg" comes
  before "page2.jpg".
 */
module StringOrder {

  /** `a <= b` under Python's ordinal string comparison. */
  predicate Le(a: string, b: string)
    decreases |a|
  {
    a == [] || (b != [] && (a[0] < b[0] || (a[0] == b[0] && Le(a[1..], b[1..]))))
  }

  lemma {:induction false} LeReflexive(a: string)
    ensures Le(a, a)
    decreases |a|
  {
    if a != [] {
      LeReflexive(a[1..]);
    }
  }

  lemma {:induction false} LeAntisymmetric(a: string, b: string)
    requires Le(a, b) && Le(b, a)
    ensures a == b
    decreases |a|
  {
    if a != [] {
      assert b != [] && a[0] == b[0];
      LeAntisymmetric(a[1..], b[1..]);
      assert a == [a[0]] + a[1..] && b == [b[0]] + b[1..];
    }
  }

  lemma {:induction false} LeTransitive(a: string, b: string, c: string)
    requires Le(a, b) && Le(b, c)
    ensures Le(a, c)
    decreases |a|
  {
    if a != [] && a[0] == b[0] && b[0] == c[0] {
      LeTransitive(a[1..], b[1..], c[1..]);
    }
  }

  lemma {:induction false} LeTotal(a: string, b: string)
    ensures Le(a, b) || Le(b, a)
    decreases |a|
  {
    if a != [] && b != [] && a[0] == b[0] {
      LeTotal(a[1..], b[1..]);
    }
  }

  /** Every earlier name is at most every later one. */
  ghost predicate Sorted(s: seq<string>)
  {
    forall i, j :: 0 <= i < j < |s| ==> Le(s[i], s[j])
  }

  /** A lower bound of a sorted list, placed in front, keeps it sorted. */
  lemma ConsSorted(b: string, s: seq<string>)
    requires Sorted(s)
    requires forall k :: 0 <= k < |s| ==> Le(b, s[k])
    ensures Sorted([b] + s)
  {
    var r := [b] + s;
    forall i, j | 0 <= i < j < |r| ensures Le(r[i], r[j]) {
      assert r[j] == s[j - 1];
      if i > 0 { assert r[i] == s[i - 1]; }
    }
  }

  /** A lower bound of a list and of `x` bounds every element of a permutation of both. */
  lemma BoundPermutation(b: string, s: seq<string>, x: string, r: seq<string>)
    requires Le(b, x)
    requires forall k :: 0 <= k < |s| ==> Le(b, s[k])
    requires multiset(r) == multiset(s) + multiset{x}
    ensures forall k :: 0 <= k < |r| ==> Le(b, r[k])
  {
    forall k | 0 <= k < |r| ensures Le(b, r[k]) {
      assert r[k] in multiset(r);
      if r[k] != x {
        assert r[k] in multiset(s);
        var j :| 0 <= j < |s| && s[j] == r[k];
      }
    }
  }

  /** Inserts `x` into a sorted list, before the first element it does not exceed. */
  function Insert(x: string, s: seq<string>): (r: seq<string>)
    requires Sorted(s)
    ensures Sorted(r)
    ensures multiset(r) == multiset(s) + multiset{x}
    decreases |s|
  {
    if s == [] then [x]
    else if Le(x, s[0]) then
      assert forall j :: 0 <= j < |s| ==> Le(x, s[j]) by {
        forall j | 0 <= j < |s| ensures Le(x, s[j]) {
          if j > 0 { LeTransitive(x, s[0], s[j]); }
        }
      }
      ConsSorted(x, s);
      [x] + s
    else
      LeTotal(x, s[0]);
      var tail := s[1..];
      var rest := Insert(x, tail);
      assert forall k :: 0 <= k < |tail| ==> Le(s[0], tail[k]);
      BoundPermutation(s[0], tail, x, rest);
      ConsSorted(s[0], rest);
      assert s == [s[0]] + tail;
      [s[0]] + rest
  }

  /** Python's `sorted` on a list of names: a sorted permutation of the input. */
  function SortStrings(s: seq<string>): (r: seq<string>)
    ensures Sorted(r)
    ensures multiset(r) == multiset(s)
    decreases |s|
  {
    if s == [] then []
    else
      assert s == [s[0]] + s[1..];
      Insert(s[0], SortStrings(s[1..]))
  }

  /** The first element of a non-empty sorted list is at most every element of it. */
  lemma HeadIsMinimum(s: seq<string>, x: string)
    requires Sorted(s) && x in s
    ensures Le(s[0], x)
  {
    var i :| 0 <= i < |s| && s[i] == x;
    if i == 0 { LeReflexive(x); }
  }

  /** Removing the first element of a list from its multiset leaves the multiset of the rest. */
  lemma TailMultiset(s: seq<string>)
    requires s != []
    ensures multiset(s[1..]) == multiset(s) - multiset{s[0]}
  {
    assert s == [s[0]] + s[1..];
  }

  /**
    Two sorted permutations of the same names are equal, so `SortStrings`
    returns exactly what any correct sort (Python's Timsort included) returns.
   */
  lemma {:induction false} SortedPermutationUnique(a: seq<string>, b: seq<string>)
    requires Sorted(a) && Sorted(b)
    requires multiset(a) == multiset(b)
    ensures a == b
    decreases |a|
  {
    assert |a| == |multiset(a)| == |multiset(b)| == |b|;
    if a != [] {
      assert a[0] in multiset(b) && b[0] in multiset(a);
      HeadIsMinimum(b, a[0]);
      HeadIsMinimum(a, b[0]);
      LeAntisymmetric(a[0], b[0]);
      TailMultiset(a);
      TailMultiset(b);
      SortedPermutationUnique(a[1..], b[1..]);
      assert a == [a[0]] + a[1..] && b == [b[0]] + b[1..];
    }
  }

  /** The last element of a non-empty sorted list is a maximum of the list. */
  lemma LastIsMaximum(s: seq<string>)
    requires Sorted(s) && s != []
    ensures forall x :: x in s ==> Le(x, s[|s| - 1])
  {
    forall x | x in s ensures Le(x, s[|s| - 1]) {
      var i :| 0 <= i < |s| && s[i] == x;
      if i == |s| - 1 { LeReflexive(x); }
    }
  }
}
