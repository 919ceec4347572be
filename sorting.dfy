/** The in-place sort of the missing ids (`difflist.sort()`), and the sorted
    list of a set of strings as a reference definition it is proved against. */
module Sorting {
  import opened Order

  /** Sorts `a` in place, ascending in string order (insertion sort). */
  method SortIds(a: array<string>)
    modifies a
    ensures Sorted(a[..])
    ensures multiset(a[..]) == old(multiset(a[..]))
  {
    var i := 0;
    while i < a.Length
      invariant 0 <= i <= a.Length
      invariant forall k :: 0 < k < i ==> LessEq(a[k - 1], a[k])
      invariant multiset(a[..]) == old(multiset(a[..]))
    {
      InsertLeft(a, i);
      i := i + 1;
    }
    assert AdjacentSorted(a[..]);
    AdjacentSortedIsSorted(a[..]);
  }

  /** Moves a[i] left, by adjacent swaps, until its left neighbour is not
      greater, so that the ascending prefix a[..i] grows to a[..i + 1]. */
  method InsertLeft(a: array<string>, i: nat)
    requires i < a.Length
    requires forall k :: 0 < k < i ==> LessEq(a[k - 1], a[k])
    modifies a
    ensures forall k :: 0 < k <= i ==> LessEq(a[k - 1], a[k])
    ensures multiset(a[..i + 1]) == old(multiset(a[..i + 1]))
    ensures a[i + 1..] == old(a[i + 1..])
    ensures multiset(a[..]) == old(multiset(a[..]))
  {
    var j := i;
    while j > 0 && !LessEq(a[j - 1], a[j])
      invariant 0 <= j <= i
      invariant AscendingBut(a[..], i, j)
      invariant multiset(a[..i + 1]) == old(multiset(a[..i + 1]))
      invariant a[i + 1..] == old(a[i + 1..])
      invariant multiset(a[..]) == old(multiset(a[..]))
    {
      LessEqTotal(a[j - 1], a[j]);
      SwapDown(a, i, j);
      j := j - 1;
    }
  }

  /** Swaps the out-of-order pair a[j - 1], a[j], moving the gap of
      `InsertLeft` one place to the left. */
  method SwapDown(a: array<string>, i: nat, j: nat)
    requires 0 < j <= i < a.Length
    requires AscendingBut(a[..], i, j) && LessEq(a[j], a[j - 1])
    modifies a
    ensures a[..] == old(a[..][j - 1 := a[j]][j := a[j - 1]])
    ensures AscendingBut(a[..], i, j - 1)
    ensures multiset(a[..i + 1]) == old(multiset(a[..i + 1]))
    ensures a[i + 1..] == old(a[i + 1..])
    ensures multiset(a[..]) == old(multiset(a[..]))
  {
    ghost var before := a[..];
    a[j - 1], a[j] := a[j], a[j - 1];
    assert a[..] == before[j - 1 := before[j]][j := before[j - 1]];
    SwapKeepsOrder(before, i, j);
    SwapStaysInPrefix(before, i, j);
  }

  /** A swap at j - 1, j inside a[..i + 1] keeps the prefix's elements and
      leaves everything after it alone. */
  lemma SwapStaysInPrefix(s: seq<string>, i: nat, j: nat)
    requires 0 < j <= i < |s|
    ensures var t := s[j - 1 := s[j]][j := s[j - 1]];
      && multiset(t[..i + 1]) == multiset(s[..i + 1])
      && t[i + 1..] == s[i + 1..]
  {
    var t := s[j - 1 := s[j]][j := s[j - 1]];
    var p := s[..i + 1];
    assert t[..i + 1] == p[j - 1 := p[j]][j := p[j - 1]];
  }

  /** a[..i + 1] is ascending except, possibly, between j - 1 and j, and
      bridging that gap is in order: the state between two swaps of
      `InsertLeft`. */
  ghost predicate AscendingBut(s: seq<string>, i: nat, j: nat)
    requires j <= i < |s|
  {
    && (forall k :: 0 < k <= i && k != j ==> LessEq(s[k - 1], s[k]))
    && (0 < j < i ==> LessEq(s[j - 1], s[j + 1]))
  }

  /** One step of `InsertLeft`: swapping an out-of-order pair at j - 1, j
      moves the gap in the ascending run from j to j - 1. */
  lemma SwapKeepsOrder(s: seq<string>, i: nat, j: nat)
    requires 0 < j <= i < |s|
    requires AscendingBut(s, i, j)
    requires LessEq(s[j], s[j - 1])
    ensures AscendingBut(s[j - 1 := s[j]][j := s[j - 1]], i, j - 1)
  {
    var t := s[j - 1 := s[j]][j := s[j - 1]];
    forall k | 0 < k <= i && k != j - 1
      ensures LessEq(t[k - 1], t[k])
    {
      if k == j + 1 {
        assert t[k - 1] == s[j - 1] && t[k] == s[k];
      } else if k != j {
        assert t[k - 1] == s[k - 1] && t[k] == s[k];
      }
    }
    if 0 < j - 1 {
      assert t[j - 2] == s[j - 2] && t[j] == s[j - 1];
    }
  }

  /** A non-empty set of strings has a least element. */
  lemma {:induction false} LeastOf(s: set<string>) returns (m: string)
    requires s != {}
    ensures m in s && forall x :: x in s ==> LessEq(m, x)
    decreases s
  {
    var y :| y in s;
    if s == {y} {
      LessEqReflexive(y);
      m := y;
    } else {
      var least := LeastOf(s - {y});
      LessEqTotal(least, y);
      if LessEq(least, y) {
        m := least;
      } else {
        m := y;
        forall x | x in s
          ensures LessEq(y, x)
        {
          if x == y {
            LessEqReflexive(y);
          } else {
            LessEqTransitive(y, least, x);
          }
        }
      }
    }
  }

  /** `LeastOf` as an existence statement, for use inside functions. */
  lemma LeastExists(s: set<string>)
    requires s != {}
    ensures exists m :: m in s && forall x :: x in s ==> LessEq(m, x)
  {
    var m := LeastOf(s);
  }

  /** Putting the least element of `s` before an ascending list of the rest
      of `s` gives an ascending list of `s`. */
  lemma PrependLeast(m: string, rest: seq<string>, s: set<string>)
    requires m in s && forall x :: x in s ==> LessEq(m, x)
    requires Sorted(rest) && multiset(rest) == multiset(s - {m})
    ensures Sorted([m] + rest) && multiset([m] + rest) == multiset(s)
  {
    PrependLeastSorted(m, rest, s);
    PrependLeastCount(m, rest, s);
  }

  /** The order half of `PrependLeast`. */
  lemma PrependLeastSorted(m: string, rest: seq<string>, s: set<string>)
    requires forall x :: x in s ==> LessEq(m, x)
    requires Sorted(rest) && multiset(rest) == multiset(s - {m})
    ensures Sorted([m] + rest)
  {
    var r := [m] + rest;
    forall i, j | 0 <= i < j < |r|
      ensures LessEq(r[i], r[j])
    {
      assert r[j] == rest[j - 1] && rest[j - 1] in multiset(rest);
      if i > 0 {
        assert r[i] == rest[i - 1];
      }
    }
  }

  /** The element half of `PrependLeast`. */
  lemma PrependLeastCount(m: string, rest: seq<string>, s: set<string>)
    requires m in s && multiset(rest) == multiset(s - {m})
    ensures multiset([m] + rest) == multiset(s)
  {
    assert s == (s - {m}) + {m};
    assert multiset([m] + rest) == multiset{m} + multiset(rest);
  }

  /** The elements of `s` in ascending order, each once: the reference the
      in-place sort of the missing ids is checked against. */
  ghost function SortedList(s: set<string>): (r: seq<string>)
    ensures Sorted(r)
    ensures multiset(r) == multiset(s)
    decreases s
  {
    if s == {} then []
    else
      LeastExists(s);
      var m :| m in s && forall x :: x in s ==> LessEq(m, x);
      var rest := SortedList(s - {m});
      PrependLeast(m, rest, s);
      [m] + rest
  }

  /** The head of an ascending sequence is below each of its elements. */
  lemma HeadIsLeast(a: seq<string>, y: string)
    requires Sorted(a) && y in a
    ensures LessEq(a[0], y)
  {
    var i :| 0 <= i < |a| && a[i] == y;
    if i == 0 {
      LessEqReflexive(y);
    }
  }

  /** Dropping the head removes one occurrence of it. */
  lemma MultisetTail(a: seq<string>)
    requires a != []
    ensures multiset(a[1..]) == multiset(a) - multiset{a[0]}
  {
    assert a == [a[0]] + a[1..];
  }

  /** Two ascending sequences with the same elements are equal: sorting has
      only one possible result. */
  lemma {:induction false} SortedUnique(a: seq<string>, b: seq<string>)
    requires Sorted(a) && Sorted(b)
    requires multiset(a) == multiset(b)
    ensures a == b
  {
    if a == [] {
      assert |b| == |multiset(b)| == 0;
    } else {
      SameHead(a, b);
      MultisetTail(a);
      MultisetTail(b);
      SortedTail(a);
      SortedTail(b);
      SortedUnique(a[1..], b[1..]);
      assert a == [a[0]] + a[1..] && b == [b[0]] + b[1..];
    }
  }

  /** Two ascending sequences with the same elements start alike. */
  lemma SameHead(a: seq<string>, b: seq<string>)
    requires Sorted(a) && Sorted(b) && multiset(a) == multiset(b)
    requires a != []
    ensures b != [] && a[0] == b[0]
  {
    assert a[0] in multiset(b);
    assert b[0] in multiset(a);
    HeadIsLeast(a, b[0]);
    HeadIsLeast(b, a[0]);
    LessEqAntisymmetric(a[0], b[0]);
  }

  /** The tail of an ascending sequence is ascending. */
  lemma SortedTail(a: seq<string>)
    requires Sorted(a) && a != []
    ensures Sorted(a[1..])
  {
    forall i, j | 0 <= i < j < |a| - 1
      ensures LessEq(a[1..][i], a[1..][j])
    {
      assert a[1..][i] == a[i + 1] && a[1..][j] == a[j + 1];
    }
  }

  /** An element counted at most once occurs at one position only. */
  lemma CountedOnce(r: seq<string>, i: nat, j: nat)
    requires i < j < |r| && multiset(r)[r[i]] <= 1
    ensures r[i] != r[j]
  {
    assert r == r[..j] + r[j..];
    assert r[i] in r[..j] && r[j] in r[j..];
  }

  /** A sequence with the elements of a set holds each of them exactly once. */
  lemma SeqOfSet(r: seq<string>, s: set<string>)
    requires multiset(r) == multiset(s)
    ensures Distinct(r)
    ensures forall x :: x in r <==> x in s
    ensures |r| == |s|
  {
    assert |r| == |multiset(r)|;
    assert forall x :: x in r <==> x in multiset(r);
    forall i, j | 0 <= i < j < |r|
      ensures r[i] != r[j]
    {
      assert multiset(r)[r[i]] == multiset(s)[r[i]] <= 1;
      CountedOnce(r, i, j);
    }
  }

  /** The sorted list of a set holds each element of the set exactly once. */
  lemma SortedListIsSet(s: set<string>)
    ensures Distinct(SortedList(s))
    ensures forall x :: x in SortedList(s) <==> x in s
    ensures |SortedList(s)| == |s|
  {
    SeqOfSet(SortedList(s), s);
  }
}
