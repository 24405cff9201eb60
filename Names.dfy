/**
 Name lists as PHP's sort() and array_unique() leave them: strings compared
 character by character (a proper prefix sorts first), sorted ascending,
 duplicates dropped keeping the first occurrence.
 */
module Names {
  import opened Sequences

  /** Lexicographic order on strings by character code. */
  predicate StrLe(a: string, b: string)
    decreases |a|
  {
    |a| == 0 || (|b| > 0 && (a[0] < b[0] || (a[0] == b[0] && StrLe(a[1..], b[1..]))))
  }

  lemma {:induction false} StrLeTotal(a: string, b: string)
    ensures StrLe(a, b) || StrLe(b, a)
    decreases |a|
  {
    if |a| > 0 && |b| > 0 && a[0] == b[0] {
      StrLeTotal(a[1..], b[1..]);
    }
  }

  lemma {:induction false} StrLeReflexive(a: string)
    ensures StrLe(a, a)
    decreases |a|
  {
    if |a| > 0 {
      StrLeReflexive(a[1..]);
    }
  }

  lemma {:induction false} StrLeAntisymmetric(a: string, b: string)
    requires StrLe(a, b) && StrLe(b, a)
    ensures a == b
    decreases |a|
  {
    if |a| > 0 {
      StrLeAntisymmetric(a[1..], b[1..]);
      assert a == [a[0]] + a[1..] && b == [b[0]] + b[1..];
    }
  }

  lemma {:induction false} StrLeTransitive(a: string, b: string, c: string)
    requires StrLe(a, b) && StrLe(b, c)
    ensures StrLe(a, c)
    decreases |a|
  {
    if |a| > 0 && a[0] == b[0] && b[0] == c[0] {
      StrLeTransitive(a[1..], b[1..], c[1..]);
    }
  }

  predicate Sorted(s: seq<string>)
  {
    forall i, j {:trigger StrLe(s[i], s[j])} :: 0 <= i < j < |s| ==> StrLe(s[i], s[j])
  }

  /** Inserts x before the first element it sorts below. */
  function Insert(x: string, s: seq<string>): (r: seq<string>)
    requires Sorted(s)
    ensures Sorted(r) && multiset(r) == multiset(s) + multiset{x}
  {
    if |s| == 0 then [x]
    else if StrLe(x, s[0]) then
      InsertFront(x, s);
      [x] + s
    else
      var t := Insert(x, s[1..]);
      InsertBehind(x, s, t);
      [s[0]] + t
  }

  lemma InsertFront(x: string, s: seq<string>)
    requires Sorted(s) && |s| > 0 && StrLe(x, s[0])
    ensures Sorted([x] + s)
  {
    forall j | 0 < j < |s| ensures StrLe(x, s[j]) { StrLeTransitive(x, s[0], s[j]); }
  }

  lemma InsertBehind(x: string, s: seq<string>, t: seq<string>)
    requires Sorted(s) && |s| > 0 && !StrLe(x, s[0])
    requires Sorted(t) && multiset(t) == multiset(s[1..]) + multiset{x}
    ensures Sorted([s[0]] + t) && multiset([s[0]] + t) == multiset(s) + multiset{x}
  {
    StrLeTotal(x, s[0]);
    assert s == [s[0]] + s[1..];
    forall j | 0 <= j < |t| ensures StrLe(s[0], t[j]) {
      assert t[j] in multiset(t);
      if t[j] != x {
        assert t[j] in s[1..];
        var k :| 0 <= k < |s[1..]| && s[1..][k] == t[j];
        assert s[k + 1] == t[j];
      }
    }
  }

  /** PHP sort() on a list of strings. */
  function SortNames(s: seq<string>): (r: seq<string>)
    ensures Sorted(r) && multiset(r) == multiset(s)
  {
    if |s| == 0 then [] else
      assert s == [s[0]] + s[1..];
      Insert(s[0], SortNames(s[1..]))
  }

  lemma SortedHeadIsLeast(a: seq<string>, x: string)
    requires Sorted(a) && x in a
    ensures StrLe(a[0], x)
  {
    var i :| 0 <= i < |a| && a[i] == x;
    if i == 0 { StrLeReflexive(x); }
  }

  lemma SortedTail(a: seq<string>)
    requires Sorted(a) && |a| > 0
    ensures Sorted(a[1..]) && multiset(a[1..]) == multiset(a) - multiset{a[0]}
  {
    assert a == [a[0]] + a[1..];
  }

  /** Two sorted lists holding the same names are the same list, so
      SortNames is the only possible result of sorting. */
  lemma {:induction false} SortedUnique(a: seq<string>, b: seq<string>)
    requires Sorted(a) && Sorted(b) && multiset(a) == multiset(b)
    ensures a == b
    decreases |a|
  {
    if |a| > 0 {
      assert a[0] in multiset(b);
      assert b[0] in multiset(a);
      SortedHeadIsLeast(a, b[0]);
      SortedHeadIsLeast(b, a[0]);
      StrLeAntisymmetric(a[0], b[0]);
      SortedTail(a);
      SortedTail(b);
      SortedUnique(a[1..], b[1..]);
      assert a == [a[0]] + a[1..] && b == [b[0]] + b[1..];
    } else {
      assert |b| == |multiset(b)|;
    }
  }

  /** Two sorted lists without repeats that hold the same names are the
      same list. */
  lemma SortedSetUnique(a: seq<string>, b: seq<string>)
    requires Sorted(a) && Sorted(b) && Distinct(a) && Distinct(b)
    requires forall x :: x in a <==> x in b
    ensures a == b
  {
    forall x ensures multiset(a)[x] == multiset(b)[x] {
      DistinctCount(a, x);
      DistinctCount(b, x);
    }
    assert multiset(a) == multiset(b);
    SortedUnique(a, b);
  }

  lemma SortNamesOfSorted(s: seq<string>)
    requires Sorted(s)
    ensures SortNames(s) == s
  {
    SortedUnique(SortNames(s), s);
  }

  lemma SortNamesHas(s: seq<string>, x: string)
    requires x in s
    ensures x in SortNames(s)
  {
    assert x in multiset(s);
  }

  /** Sorting only depends on the names, not on their order. */
  lemma SortNamesPermutation(a: seq<string>, b: seq<string>)
    requires multiset(a) == multiset(b)
    ensures SortNames(a) == SortNames(b)
  {
    SortedUnique(SortNames(a), SortNames(b));
  }

  /** PHP array_unique(): keeps the first occurrence of every name. */
  function Dedup(s: seq<string>): (r: seq<string>)
    ensures Distinct(r)
    ensures forall x :: x in r <==> x in s
  {
    if |s| == 0 then []
    else
      var t := Dedup(s[..|s| - 1]);
      assert forall x :: x in s <==> x in s[..|s| - 1] || x == s[|s| - 1] by {
        assert s == s[..|s| - 1] + [s[|s| - 1]];
      }
      if s[|s| - 1] in t then t else t + [s[|s| - 1]]
  }

  /** sort(array_unique(...)): a sorted list holding each name once. */
  function SortedSet(s: seq<string>): (r: seq<string>)
    ensures Sorted(r) && Distinct(r)
    ensures forall x :: x in r <==> x in s
  {
    var d := Dedup(s);
    var r := SortNames(d);
    assert forall x :: x in r <==> x in d by {
      forall x ensures x in r <==> x in d { assert x in r <==> x in multiset(r); }
    }
    DistinctPermutation(r, d);
    r
  }

  // ---------------------------------------------------------------------
  // The names held by a map of name lists, regardless of where.

  function Elems(s: seq<string>): set<string>
  {
    set x | x in s
  }

  ghost function AllNames<K>(m: map<K, seq<string>>): set<string>
  {
    set k, x | k in m && x in m[k] :: x
  }

  /** Two maps holding the same names (kept folded in inductions that chain
      many of these equalities). */
  ghost predicate SameNames<K>(a: map<K, seq<string>>, b: map<K, seq<string>>)
  {
    AllNames(a) == AllNames(b)
  }

  lemma SameNamesTransitive<K>(a: map<K, seq<string>>, b: map<K, seq<string>>, c: map<K, seq<string>>)
    requires SameNames(a, b) && SameNames(b, c)
    ensures SameNames(a, c)
  {
  }

  lemma AllNamesRemove<K>(m: map<K, seq<string>>, k: K)
    requires k in m
    ensures AllNames(m) == AllNames(m - {k}) + Elems(m[k])
  {
    forall x | x in AllNames(m) ensures x in AllNames(m - {k}) + Elems(m[k]) {
      var j :| j in m && x in m[j];
      if j != k {
        assert j in m - {k} && x in (m - {k})[j];
      } else {
        assert x in Elems(m[k]);
      }
    }
  }

  lemma AllNamesAbsent<K>(m: map<K, seq<string>>, k: K)
    requires k !in m
    ensures AllNames(m - {k}) == AllNames(m)
  {
    assert m - {k} == m;
  }

  lemma AllNamesUpdate<K>(m: map<K, seq<string>>, k: K, v: seq<string>)
    ensures AllNames(m[k := v]) == AllNames(m - {k}) + Elems(v)
  {
    assert (m[k := v]) - {k} == m - {k};
    AllNamesRemove(m[k := v], k);
  }

  lemma ElemsConcat(a: seq<string>, b: seq<string>)
    ensures Elems(a + b) == Elems(a) + Elems(b)
  {
  }

  lemma ElemsSortNames(s: seq<string>)
    ensures Elems(SortNames(s)) == Elems(s)
  {
    forall x ensures x in SortNames(s) <==> x in s {
      assert x in SortNames(s) <==> x in multiset(SortNames(s));
    }
  }

  /** Moving the names under key a onto key c, where c ends up holding
      its own names (if any) together with a's, keeps every name. */
  lemma AllNamesMove<K>(m: map<K, seq<string>>, a: K, c: K, v: seq<string>)
    requires a in m && a != c
    requires Elems(v) == (if c in m then Elems(m[c]) else {}) + Elems(m[a])
    ensures AllNames(m[c := v] - {a}) == AllNames(m)
  {
    var rest := m - {a} - {c};
    assert m[c := v] - {a} - {c} == rest;
    assert m - {c} - {a} == rest;
    AllNamesRemove(m[c := v] - {a}, c);
    assert (m[c := v] - {a})[c] == v;
    AllNamesRemove(m, a);
    if c in m {
      AllNamesRemove(m - {a}, c);
    } else {
      assert m - {a} == rest;
    }
  }

  /** No name is listed under two keys of the map. */
  ghost predicate Disjoint<K>(m: map<K, seq<string>>)
  {
    forall a, c, x :: a in m && c in m && x in m[a] && x in m[c] ==> a == c
  }

  /** Moving the names under key a onto key c, where c ends up holding at
      most its own names and a's, keeps names apart. */
  lemma MoveDisjoint<K>(m: map<K, seq<string>>, a: K, c: K, v: seq<string>)
    requires Disjoint(m) && a in m && a != c
    requires Elems(v) <= (if c in m then Elems(m[c]) else {}) + Elems(m[a])
    ensures Disjoint(m[c := v] - {a})
  {
    var r := m[c := v] - {a};
    forall p, q, x | p in r && q in r && x in r[p] && x in r[q] ensures p == q {
      assert p != a && q != a;
      assert p == c || r[p] == m[p];
      assert q == c || r[q] == m[q];
      assert x in Elems(r[p]) && x in Elems(r[q]);
    }
  }

  /** The names listed under the given keys, wherever they sit in the order. */
  ghost function ListedNames<K>(keys: seq<K>, m: map<K, seq<string>>): set<string>
  {
    set j, x | 0 <= j < |keys| && keys[j] in m && x in m[keys[j]] :: x
  }

  lemma ListedNamesEmpty<K>(m: map<K, seq<string>>)
    ensures ListedNames([], m) == {}
  {
  }

  lemma ListedNamesSnoc<K>(keys: seq<K>, m: map<K, seq<string>>)
    requires |keys| > 0 && keys[|keys| - 1] in m
    ensures ListedNames(keys, m) == ListedNames(keys[..|keys| - 1], m) + Elems(m[keys[|keys| - 1]])
  {
    var n := |keys| - 1;
    forall x | x in ListedNames(keys, m) ensures x in ListedNames(keys[..n], m) + Elems(m[keys[n]]) {
      var j :| 0 <= j < |keys| && keys[j] in m && x in m[keys[j]];
      if j < n {
        assert keys[..n][j] == keys[j];
      }
    }
    forall x | x in ListedNames(keys[..n], m) ensures x in ListedNames(keys, m) {
      var j :| 0 <= j < |keys[..n]| && keys[..n][j] in m && x in m[keys[..n][j]];
      assert keys[j] == keys[..n][j];
    }
    forall x | x in Elems(m[keys[n]]) ensures x in ListedNames(keys, m) {
      assert keys[n] in m && x in m[keys[n]];
    }
  }

  /** Listing every key of a map once lists all its names. */
  lemma ListedAllNames<K>(keys: seq<K>, m: map<K, seq<string>>)
    requires forall k :: k in m <==> k in keys
    ensures ListedNames(keys, m) == AllNames(m)
  {
    forall x | x in AllNames(m) ensures x in ListedNames(keys, m) {
      var k :| k in m && x in m[k];
      var j :| 0 <= j < |keys| && keys[j] == k;
      assert keys[j] in m && x in m[keys[j]];
    }
  }
}
