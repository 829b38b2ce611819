/**
 * `Array.prototype.sort((a, b) => a - b)` on a list of code points: an in-place ascending
 * sort. The engine's algorithm is not specified; the model sorts by insertion, and what
 * matters of the result (sorted, a permutation) determines it uniquely.
 */
module Sorting {

  predicate Sorted(s: seq<nat>) {
    forall i, j :: 0 <= i < j < |s| ==> s[i] <= s[j]
  }

  predicate StrictlyIncreasing(s: seq<nat>) {
    forall i, j :: 0 <= i < j < |s| ==> s[i] < s[j]
  }

  predicate Distinct<T(==)>(s: seq<T>) {
    forall i, j :: 0 <= i < j < |s| ==> s[i] != s[j]
  }

  /** Sorts `a` in place, ascending. */
  method SortAscending(a: array<nat>)
    modifies a
    ensures Sorted(a[..])
    ensures multiset(a[..]) == multiset(old(a[..]))
  {
    for i := 0 to a.Length
      invariant SortedPrefix(a[..], i)
      invariant multiset(a[..]) == multiset(old(a[..]))
    {
      Insert(a, i);
    }
    assert a[..] == a[..a.Length];
  }

  /** The first `n` elements of `s` are in order. */
  predicate SortedPrefix(s: seq<nat>, n: nat)
    requires n <= |s|
  {
    forall k, l :: 0 <= k < l < n ==> s[k] <= s[l]
  }

  /** Moves `a[i]` left into the sorted prefix `a[..i]`. */
  method Insert(a: array<nat>, i: nat)
    requires i < a.Length && SortedPrefix(a[..], i)
    modifies a
    ensures SortedPrefix(a[..], i + 1)
    ensures multiset(a[..]) == multiset(old(a[..]))
  {
    var j := i;
    while j > 0 && a[j - 1] > a[j]
      invariant 0 <= j <= i
      invariant forall k, l :: 0 <= k < l <= i && l != j ==> a[k] <= a[l]
      invariant 0 < j < i ==> a[j - 1] <= a[j + 1]
      invariant multiset(a[..]) == multiset(old(a[..]))
    {
      Swap(a, j - 1, j);
      j := j - 1;
    }
  }

  /** Exchanges `a[i]` and `a[j]`. */
  method Swap(a: array<nat>, i: nat, j: nat)
    requires i < j < a.Length
    modifies a
    ensures a[i] == old(a[j]) && a[j] == old(a[i])
    ensures forall k :: 0 <= k < a.Length && k != i && k != j ==> a[k] == old(a[k])
    ensures multiset(a[..]) == multiset(old(a[..]))
  {
    ghost var before := a[..];
    a[i], a[j] := a[j], a[i];
    assert a[..] == before[i := before[j]][j := before[i]];
    SwapKeepsValues(before, i, j);
  }

  /** Exchanging two elements rearranges the values and keeps them all. */
  lemma SwapKeepsValues(s: seq<nat>, i: nat, j: nat)
    requires i < j < |s|
    ensures multiset(s[i := s[j]][j := s[i]]) == multiset(s)
  {
    var t := s[i := s[j]];
    assert multiset(t) == multiset(s) - multiset{s[i]} + multiset{s[j]};
    assert multiset(t[j := s[i]]) == multiset(t) - multiset{t[j]} + multiset{s[i]};
  }

  /** Sorting leaves no choice: two sorted arrangements of the same values are equal. */
  lemma {:induction false} SortedUnique(a: seq<nat>, b: seq<nat>)
    requires Sorted(a) && Sorted(b) && multiset(a) == multiset(b)
    ensures a == b
  {
    if a != [] {
      assert |b| == |a| by {
        assert |multiset(a)| == |multiset(b)|;
      }
      assert a[0] == b[0] by {
        assert a[0] in multiset(b);
        assert b[0] in multiset(a);
        var i :| 0 <= i < |b| && b[i] == a[0];
        var j :| 0 <= j < |a| && a[j] == b[0];
        assert b[0] <= b[i] && a[0] <= a[j];
      }
      assert a == [a[0]] + a[1..] && b == [b[0]] + b[1..];
      assert multiset(a[1..]) == multiset(b[1..]) by {
        assert multiset(a) == multiset{a[0]} + multiset(a[1..]);
        assert multiset(b) == multiset{b[0]} + multiset(b[1..]);
        forall x
          ensures multiset(a[1..])[x] == multiset(b[1..])[x]
        {
          assert multiset(a)[x] == multiset(b)[x];
        }
      }
      SortedUnique(a[1..], b[1..]);
    }
  }

  /** Values occurring once each keep occurring once each under any rearrangement. */
  lemma DistinctCounts<T>(s: seq<T>)
    ensures Distinct(s) <==> forall x :: multiset(s)[x] <= 1
  {
    if Distinct(s) {
      forall x
        ensures multiset(s)[x] <= 1
      {
        DistinctCountOne(s, x);
      }
    }
    if !Distinct(s) {
      var i, j :| 0 <= i < j < |s| && s[i] == s[j];
      assert s == s[..j] + [s[j]] + s[j + 1..];
      assert s[i] in s[..j];
      assert multiset(s)[s[i]] == multiset(s[..j])[s[i]] + 1 + multiset(s[j + 1..])[s[i]];
    }
  }

  lemma {:induction false} DistinctCountOne<T>(s: seq<T>, x: T)
    requires Distinct(s)
    ensures multiset(s)[x] <= 1
  {
    if s != [] {
      var t := s[..|s| - 1];
      assert s == t + [s[|s| - 1]];
      assert Distinct(t);
      DistinctCountOne(t, x);
      if x == s[|s| - 1] {
        assert x !in t;
      }
    }
  }

  /** A sorted list of distinct values is strictly increasing. */
  lemma SortedDistinct(s: seq<nat>)
    requires Sorted(s) && Distinct(s)
    ensures StrictlyIncreasing(s)
  {
  }
}
