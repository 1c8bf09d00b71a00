/**
 Python's `sorted` on a list of strings. The model sorts by insertion; the
 lemma `SortedUnique` shows that any sorted permutation of the input is the
 same sequence, so the choice of algorithm is not observable.
 */
module Sorting {
  import opened Strings

  /** Ascending in Python's string order. */
  ghost predicate Sorted(s: seq<string>)
  {
    forall i, j :: 0 <= i < j < |s| ==> LexLessEq(s[i], s[j])
  }

  /** Inserts `x` into the sorted sequence `s` before the first larger element. */
  function Insert(x: string, s: seq<string>): (r: seq<string>)
    requires Sorted(s)
    ensures Sorted(r)
    ensures multiset(r) == multiset(s) + multiset{x}
  {
    if s == [] then [x]
    else if LexLessEq(x, s[0]) then
      InsertFrontSorted(x, s);
      [x] + s
    else
      var rest := Insert(x, s[1..]);
      InsertLaterSorted(x, s, rest);
      [s[0]] + rest
  }

  lemma InsertFrontSorted(x: string, s: seq<string>)
    requires Sorted(s) && s != [] && LexLessEq(x, s[0])
    ensures Sorted([x] + s)
  {
    forall j | 0 <= j < |s| ensures LexLessEq(x, s[j]) {
      if j > 0 { LexTransitive(x, s[0], s[j]); }
    }
  }

  lemma InsertLaterSorted(x: string, s: seq<string>, rest: seq<string>)
    requires Sorted(s) && s != [] && !LexLessEq(x, s[0])
    requires Sorted(rest) && multiset(rest) == multiset(s[1..]) + multiset{x}
    ensures Sorted([s[0]] + rest)
    ensures multiset([s[0]] + rest) == multiset(s) + multiset{x}
  {
    LexTotal(x, s[0]);
    assert s == [s[0]] + s[1..];
    forall y | y in rest ensures LexLessEq(s[0], y) {
      assert y in multiset(rest);
      if y != x {
        assert y in s[1..];
      }
    }
  }

  /** Python's `sorted`: the ascending permutation of `s`. */
  function Sort(s: seq<string>): (r: seq<string>)
    ensures Sorted(r)
    ensures multiset(r) == multiset(s)
  {
    if s == [] then []
    else
      assert s == [s[0]] + s[1..];
      Insert(s[0], Sort(s[1..]))
  }

  /** Two sorted sequences with the same elements are the same sequence. */
  lemma {:induction false} SortedUnique(a: seq<string>, b: seq<string>)
    requires Sorted(a) && Sorted(b)
    requires multiset(a) == multiset(b)
    ensures a == b
  {
    if a == [] {
      assert |b| == |multiset(b)| == 0;
    } else {
      assert |b| == |multiset(b)| == |multiset(a)| == |a|;
      SortedSameFirst(a, b);
      assert a == [a[0]] + a[1..];
      assert b == [b[0]] + b[1..];
      assert multiset(a[1..]) == multiset(a) - multiset{a[0]};
      assert multiset(b[1..]) == multiset(b) - multiset{b[0]};
      SortedUnique(a[1..], b[1..]);
    }
  }

  /** Two non-empty sorted sequences with the same elements start with the same element. */
  lemma SortedSameFirst(a: seq<string>, b: seq<string>)
    requires Sorted(a) && Sorted(b) && a != [] && b != []
    requires multiset(a) == multiset(b)
    ensures a[0] == b[0]
  {
    assert a[0] in multiset(b);
    var k :| 0 <= k < |b| && b[k] == a[0];
    assert b[0] in multiset(a);
    var m :| 0 <= m < |a| && a[m] == b[0];
    LexReflexive(a[0]);
    LexReflexive(b[0]);
    assert LexLessEq(b[0], b[k]);
    assert LexLessEq(a[0], a[m]);
    LexAntisymmetric(a[0], b[0]);
  }

  /** The first element of a sorted sequence is its minimum, the last its maximum. */
  lemma SortedEnds(s: seq<string>)
    requires Sorted(s) && s != []
    ensures forall x :: x in s ==> LexLessEq(s[0], x) && LexLessEq(x, s[|s| - 1])
  {
    forall x | x in s ensures LexLessEq(s[0], x) && LexLessEq(x, s[|s| - 1]) {
      LexReflexive(x);
    }
  }
}
