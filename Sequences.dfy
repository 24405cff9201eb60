/**
 Sequences without repeated elements, shared by key orders and name lists.
 */
module Sequences {

  predicate Distinct<T(==)>(s: seq<T>)
  {
    forall i, j :: 0 <= i < j < |s| ==> s[i] != s[j]
  }

  /** A sequence without repeats holds each of its elements once. */
  lemma {:induction false} DistinctCount<T>(s: seq<T>, x: T)
    requires Distinct(s)
    ensures multiset(s)[x] == if x in s then 1 else 0
  {
    if |s| > 0 {
      assert s == [s[0]] + s[1..];
      assert Distinct(s[1..]);
      DistinctCount(s[1..], x);
      assert s[0] !in s[1..];
    }
  }

  lemma PairCount<T>(s: seq<T>, i: int, j: int)
    requires 0 <= i < j < |s|
    ensures multiset(s)[s[i]] >= if s[i] == s[j] then 2 else 1
  {
    assert s == s[..i] + [s[i]] + s[i + 1..j] + [s[j]] + s[j + 1..];
  }

  /** A rearrangement of a sequence without repeats has none either. */
  lemma DistinctPermutation<T>(a: seq<T>, b: seq<T>)
    requires Distinct(b) && multiset(a) == multiset(b)
    ensures Distinct(a)
  {
    forall i, j | 0 <= i < j < |a| ensures a[i] != a[j] {
      DistinctCount(b, a[i]);
      PairCount(a, i, j);
    }
  }

  lemma AppendAssoc<T>(a: seq<T>, b: seq<T>, c: seq<T>)
    ensures a + (b + c) == (a + b) + c
  {
  }

  /** An element of a sequence without repeats occurs neither before nor
      after its own place. */
  lemma DistinctSplit<T>(a: seq<T>, x: T, c: seq<T>)
    requires Distinct(a + [x] + c)
    ensures x !in a && x !in c
  {
    var s := a + [x] + c;
    forall i | 0 <= i < |a| ensures a[i] != x {
      assert s[i] == a[i] && s[|a|] == x;
    }
    forall j | 0 <= j < |c| ensures c[j] != x {
      assert s[|a| + 1 + j] == c[j] && s[|a|] == x;
    }
  }

  /** Appending a new element keeps a sequence free of repeats. */
  lemma DistinctSnoc<T>(s: seq<T>, x: T)
    requires Distinct(s) && x !in s
    ensures Distinct(s + [x])
  {
  }

  /** An element of a met again later is a repeat. */
  lemma RepeatNotDistinct<T>(a: seq<T>, x: T, b: seq<T>)
    requires x in a
    ensures !Distinct((a + [x]) + b)
  {
    var k :| 0 <= k < |a| && a[k] == x;
    assert ((a + [x]) + b)[k] == ((a + [x]) + b)[|a|];
  }

  /** Growing a prefix by one element. */
  lemma PrefixGrows<T>(s: seq<T>, i: nat)
    requires i < |s|
    ensures s[..i + 1] == s[..i] + [s[i]]
    ensures forall x :: x in s[..i + 1] <==> x in s[..i] || x == s[i]
  {
    assert s[..i + 1] == s[..i] + [s[i]];
  }

  /** Shrinking a suffix by one element. */
  lemma SuffixShrinks<T>(s: seq<T>, i: nat)
    requires i < |s|
    ensures forall x :: x in s[i..] <==> x == s[i] || x in s[i + 1..]
  {
    assert s[i..] == [s[i]] + s[i + 1..];
  }
}
