/** Order-related facts about sequences used to state that a filter keeps
    the relative order of what it keeps. */
module Sequences {

  /** `a` can be obtained from `b` by deleting elements: each element of `b`
      is either kept (and then matches the next element of `a`) or dropped. */
  predicate IsSubsequence<T(==)>(a: seq<T>, b: seq<T>)
    decreases |b|
  {
    if b == [] then a == []
    else (a != [] && a[0] == b[0] && IsSubsequence(a[1..], b[1..])) || IsSubsequence(a, b[1..])
  }

  /** No element occurs twice. */
  predicate Distinct<T(==)>(s: seq<T>) {
    forall i, j :: 0 <= i < j < |s| ==> s[i] != s[j]
  }

  /** Deleting elements can only shorten a sequence, and keeps only elements
      that were there. */
  lemma {:induction false} SubsequenceBounds<T>(a: seq<T>, b: seq<T>)
    requires IsSubsequence(a, b)
    ensures |a| <= |b|
    ensures forall x :: x in a ==> x in b
    decreases |b|
  {
    if b != [] {
      if a != [] && a[0] == b[0] && IsSubsequence(a[1..], b[1..]) {
        SubsequenceBounds(a[1..], b[1..]);
        assert a == [a[0]] + a[1..];
      } else {
        SubsequenceBounds(a, b[1..]);
      }
    }
  }

  /** Deleting elements from a sequence without repetitions leaves one
      without repetitions. */
  lemma {:induction false} SubsequenceDistinct<T>(a: seq<T>, b: seq<T>)
    requires IsSubsequence(a, b)
    requires Distinct(b)
    ensures Distinct(a)
    decreases |b|
  {
    if b != [] {
      assert Distinct(b[1..]) by {
        forall i, j | 0 <= i < j < |b[1..]| ensures b[1..][i] != b[1..][j] {
          assert b[1..][i] == b[i + 1] && b[1..][j] == b[j + 1];
        }
      }
      if a != [] && a[0] == b[0] && IsSubsequence(a[1..], b[1..]) {
        SubsequenceDistinct(a[1..], b[1..]);
        SubsequenceBounds(a[1..], b[1..]);
        forall i, j | 0 <= i < j < |a| ensures a[i] != a[j] {
          if i == 0 {
            assert a[j] == a[1..][j - 1];
            assert a[j] in b[1..];
            var k :| 0 <= k < |b[1..]| && b[1..][k] == a[j];
            assert b[k + 1] == a[j];
          } else {
            assert a[i] == a[1..][i - 1] && a[j] == a[1..][j - 1];
          }
        }
      } else {
        SubsequenceDistinct(a, b[1..]);
      }
    }
  }

  /** Subsequences can be concatenated. */
  lemma {:induction false} SubsequenceAppend<T>(a: seq<T>, b: seq<T>, c: seq<T>, d: seq<T>)
    requires IsSubsequence(a, b)
    requires IsSubsequence(c, d)
    ensures IsSubsequence(a + c, b + d)
    decreases |b|
  {
    if b == [] {
      assert a + c == c && b + d == d;
    } else {
      assert (b + d)[1..] == b[1..] + d;
      if a != [] && a[0] == b[0] && IsSubsequence(a[1..], b[1..]) {
        SubsequenceAppend(a[1..], b[1..], c, d);
        assert (a + c)[1..] == a[1..] + c;
      } else {
        SubsequenceAppend(a, b[1..], c, d);
      }
    }
  }
}
