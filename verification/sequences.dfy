/**
 Facts about plain sequences used by the tables and the emission list:
 duplicate-freedom, order-preserving selection, and occurrence counting.
 */
module Sequences {

  /** No element occurs twice. */
  predicate NoDuplicates<T(==)>(s: seq<T>)
  {
    forall i, j | 0 <= i < j < |s| :: s[i] != s[j]
  }

  /** `a` is `b` with some elements left out, the rest kept in order. */
  predicate IsSubsequence<T(==)>(a: seq<T>, b: seq<T>)
    decreases |b|
  {
    || a == []
    || (&& b != []
        && ((a[0] == b[0] && IsSubsequence(a[1..], b[1..])) || IsSubsequence(a, b[1..])))
  }

  /** Two duplicate-free sequences with no common element concatenate to a duplicate-free one. */
  lemma ConcatNoDuplicates<T>(a: seq<T>, b: seq<T>)
    requires NoDuplicates(a) && NoDuplicates(b)
    requires forall x | x in a :: x !in b
    ensures NoDuplicates(a + b)
  {
    var c := a + b;
    forall i, j | 0 <= i < j < |c| ensures c[i] != c[j] {
      if j < |a| {
      } else if i >= |a| {
        assert c[i] == b[i - |a|] && c[j] == b[j - |a|];
      } else {
        assert c[i] in a && c[j] == b[j - |a|];
      }
    }
  }

  /** In a duplicate-free sequence every element occurs at most once. */
  lemma {:induction false} CountNoDuplicates<T>(e: seq<T>, x: T)
    requires NoDuplicates(e)
    ensures multiset(e)[x] <= 1
  {
    if e != [] {
      assert e == [e[0]] + e[1..];
      assert NoDuplicates(e[1..]) by {
        forall i, j | 0 <= i < j < |e[1..]| ensures e[1..][i] != e[1..][j] {
          assert e[1..][i] == e[i + 1] && e[1..][j] == e[j + 1];
        }
      }
      CountNoDuplicates(e[1..], x);
      if e[0] == x {
        assert x !in e[1..] by {
          forall i | 0 <= i < |e[1..]| ensures e[1..][i] != x {
            assert e[1..][i] == e[i + 1];
          }
        }
      }
    }
  }

  /** A sequence holding only `key` holds it `|e|` times. */
  lemma {:induction false} CountAllEqual<T>(e: seq<T>, key: T)
    requires forall x | x in e :: x == key
    ensures multiset(e)[key] == |e|
  {
    if e != [] {
      assert e == [e[0]] + e[1..];
      assert e[0] in e;
      assert forall x | x in e[1..] :: x in e;
      CountAllEqual(e[1..], key);
    }
  }

  /** A duplicate-free sequence holding `key` and nothing else is `[key]`. */
  lemma SingletonSeq<T>(e: seq<T>, key: T)
    requires NoDuplicates(e)
    requires key in e
    requires forall x | x in e :: x == key
    ensures e == [key]
  {
    CountNoDuplicates(e, key);
    CountAllEqual(e, key);
    assert e[0] in e;
  }

}
