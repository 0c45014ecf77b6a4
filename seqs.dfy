/**
  Sequence helpers behind the engine's label lookups and `Series.unique()`.
*/
module Seqs {

  /** No element occurs twice. */
  ghost predicate NoDup<T>(s: seq<T>) {
    forall i, j :: 0 <= i < j < |s| ==> s[i] != s[j]
  }

  /** How many times `x` occurs in `s`. */
  function Occurrences<T(==)>(s: seq<T>, x: T): (n: nat)
    ensures n == multiset(s)[x]
  {
    if s == [] then 0
    else
      assert s == s[..|s| - 1] + [s[|s| - 1]];
      Occurrences(s[..|s| - 1], x) + (if s[|s| - 1] == x then 1 else 0)
  }

  /** The position of the first occurrence of `x` in `s`. */
  function IndexOf<T(==)>(s: seq<T>, x: T): (i: nat)
    requires x in s
    ensures i < |s| && s[i] == x
    ensures forall j :: 0 <= j < i ==> s[j] != x
  {
    if s[0] == x then 0 else 1 + IndexOf(s[1..], x)
  }

  /** Two positions holding `x` make it occur at least twice. */
  lemma {:induction false} TwoOccurrences<T>(s: seq<T>, i: int, j: int)
    requires 0 <= i < j < |s| && s[i] == s[j]
    ensures Occurrences(s, s[i]) >= 2
  {
    var n := |s| - 1;
    assert s[..n][i] == s[i];
    if j < n {
      assert s[..n][j] == s[j];
      TwoOccurrences(s[..n], i, j);
    } else {
      assert s[i] in s[..n];
    }
  }

  /** An element that occurs at least twice sits at two positions. */
  lemma {:induction false} TwoPositions<T>(s: seq<T>, x: T)
    requires Occurrences(s, x) >= 2
    ensures exists i, j :: 0 <= i < j < |s| && s[i] == x && s[j] == x
  {
    var n := |s| - 1;
    if Occurrences(s[..n], x) >= 2 {
      TwoPositions(s[..n], x);
      var i, j :| 0 <= i < j < n && s[..n][i] == x && s[..n][j] == x;
      assert s[i] == x && s[j] == x;
    } else {
      assert x in s[..n];
      var i :| 0 <= i < n && s[..n][i] == x;
      assert s[i] == x && s[n] == x;
    }
  }

  /** An element that occurs exactly once sits at exactly one position. */
  lemma OnlyOccurrence<T>(s: seq<T>, i: int, j: int)
    requires 0 <= i < |s| && 0 <= j < |s| && s[i] == s[j]
    requires Occurrences(s, s[i]) == 1
    ensures i == j
  {
    if i < j {
      TwoOccurrences(s, i, j);
    } else if j < i {
      TwoOccurrences(s, j, i);
    }
  }

  /**
    `Series.unique()`: the distinct elements of `s`, each kept where it first
    occurs.
  */
  function Unique<T(==,!new)>(s: seq<T>): (u: seq<T>)
    ensures NoDup(u)
    ensures forall x :: x in u <==> x in s
  {
    if s == [] then []
    else
      var p := Unique(s[..|s| - 1]);
      var x := s[|s| - 1];
      assert forall y :: y in s <==> y in s[..|s| - 1] || y == x;
      if x in p then p else p + [x]
  }

  /** `Unique` keeps the order of first appearance. */
  lemma {:induction false} UniqueFirstAppearance<T(!new)>(s: seq<T>, i: int, j: int)
    requires 0 <= i < j < |Unique(s)|
    ensures IndexOf(s, Unique(s)[i]) < IndexOf(s, Unique(s)[j])
  {
    var n := |s| - 1;
    var p, x := Unique(s[..n]), s[n];
    var u := Unique(s);
    PrefixIndexOf(s, n, u[i]);
    if x in p {
      UniqueFirstAppearance(s[..n], i, j);
      PrefixIndexOf(s, n, u[j]);
    } else if j < |p| {
      UniqueFirstAppearance(s[..n], i, j);
      PrefixIndexOf(s, n, u[j]);
    } else {
      assert u[j] == x && x !in s[..n];
    }
  }

  /** An element of a prefix is first found inside that prefix. */
  lemma PrefixIndexOf<T>(s: seq<T>, n: int, x: T)
    requires 0 <= n <= |s| && x in s[..n]
    ensures IndexOf(s, x) == IndexOf(s[..n], x) < n
  {
    var i, k := IndexOf(s, x), IndexOf(s[..n], x);
    assert s[..n][k] == s[k];
    assert i <= k;
    assert s[..n][i] == s[i];
  }
}
