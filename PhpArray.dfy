/**
 PHP's ordered associative arrays, as far as the engine uses them: a map
 from keys to values together with the order in which the keys were first
 inserted, which is the order foreach visits them in.
 */
module PhpArray {
  import opened Sequences

  datatype PArray<K(==), V> = PArray(keys: seq<K>, vals: map<K, V>)

  /** The key order lists every key of the map exactly once. */
  ghost predicate Valid<K(!new), V>(a: PArray<K, V>)
  {
    Distinct(a.keys) && forall k :: k in a.vals <==> k in a.keys
  }

  function Empty<K(==,!new), V>(): (r: PArray<K, V>)
    ensures Valid(r) && r.keys == [] && r.vals == map[]
  {
    PArray([], map[])
  }

  /** $a[$k] = $v: an existing key keeps its place, a new key goes last. */
  function Assign<K(==,!new), V>(a: PArray<K, V>, k: K, v: V): (r: PArray<K, V>)
    ensures Valid(a) ==> Valid(r)
    ensures r.vals == a.vals[k := v]
    ensures r.keys == if k in a.vals then a.keys else a.keys + [k]
  {
    if k in a.vals then PArray(a.keys, a.vals[k := v]) else PArray(a.keys + [k], a.vals[k := v])
  }

  lemma UpdateTwice<K, V>(m: map<K, V>, k: K, v: V, w: V)
    ensures m[k := v][k := w] == m[k := w]
  {
  }

  /** Assigning a key twice is assigning it the second value. */
  lemma AssignTwice<K(!new), V>(a: PArray<K, V>, k: K, v: V, w: V)
    ensures Assign(Assign(a, k, v), k, w) == Assign(a, k, w)
  {
    var b := Assign(a, k, v);
    assert k in b.vals;
    assert Assign(b, k, w).keys == Assign(a, k, w).keys;
    UpdateTwice(a.vals, k, v, w);
  }

  /** The sequence without any occurrence of k, order kept. */
  function Without<K(==,!new)>(s: seq<K>, k: K): (r: seq<K>)
    ensures forall x :: x in r <==> x in s && x != k
    ensures |r| <= |s|
  {
    if |s| == 0 then []
    else if s[0] == k then Without(s[1..], k)
    else [s[0]] + Without(s[1..], k)
  }

  lemma {:induction false} WithoutDistinct<K(!new)>(s: seq<K>, k: K)
    ensures Distinct(s) ==> Distinct(Without(s, k))
  {
    if |s| > 0 && Distinct(s) {
      assert Distinct(s[1..]);
      WithoutDistinct(s[1..], k);
      assert s[0] !in s[1..];
    }
  }

  /** Removing a key that is not there changes nothing. */
  lemma {:induction false} WithoutAbsent<K(!new)>(s: seq<K>, k: K)
    requires k !in s
    ensures Without(s, k) == s
  {
    if |s| > 0 {
      WithoutAbsent(s[1..], k);
      assert s == [s[0]] + s[1..];
    }
  }

  /** Removing a key that occurs once leaves the keys before it and after
      it, in order. */
  lemma {:induction false} WithoutOnce<K(!new)>(a: seq<K>, k: K, c: seq<K>)
    requires k !in a && k !in c
    ensures Without(a + [k] + c, k) == a + c
  {
    if |a| == 0 {
      assert a + [k] + c == [k] + c;
      assert ([k] + c)[1..] == c;
      WithoutAbsent(c, k);
    } else {
      WithoutOnce(a[1..], k, c);
      assert (a + [k] + c)[1..] == a[1..] + [k] + c;
      assert a + c == [a[0]] + (a[1..] + c);
    }
  }

  /** unset($a[$k]). */
  function Unset<K(==,!new), V>(a: PArray<K, V>, k: K): (r: PArray<K, V>)
    ensures Valid(a) ==> Valid(r)
    ensures r.vals == a.vals - {k}
    ensures r.keys == Without(a.keys, k)
  {
    WithoutDistinct(a.keys, k);
    PArray(Without(a.keys, k), a.vals - {k})
  }

  // ---------------------------------------------------------------------
  // ksort(): the keys reordered by a rank that reflects how PHP compares them.

  predicate RankSorted<K>(s: seq<K>, rank: K -> int)
  {
    forall i, j :: 0 <= i < j < |s| ==> rank(s[i]) <= rank(s[j])
  }

  predicate StrictlyRankSorted<K>(s: seq<K>, rank: K -> int)
  {
    forall i, j :: 0 <= i < j < |s| ==> rank(s[i]) < rank(s[j])
  }

  function InsertByRank<K>(x: K, s: seq<K>, rank: K -> int): (r: seq<K>)
    requires RankSorted(s, rank)
    ensures RankSorted(r, rank) && multiset(r) == multiset(s) + multiset{x}
  {
    if |s| == 0 then [x]
    else if rank(x) <= rank(s[0]) then [x] + s
    else
      var t := InsertByRank(x, s[1..], rank);
      InsertByRankBehind(x, s, t, rank);
      [s[0]] + t
  }

  lemma InsertByRankBehind<K>(x: K, s: seq<K>, t: seq<K>, rank: K -> int)
    requires RankSorted(s, rank) && |s| > 0 && rank(s[0]) < rank(x)
    requires RankSorted(t, rank) && multiset(t) == multiset(s[1..]) + multiset{x}
    ensures RankSorted([s[0]] + t, rank) && multiset([s[0]] + t) == multiset(s) + multiset{x}
  {
    assert s == [s[0]] + s[1..];
    forall j | 0 <= j < |t| ensures rank(s[0]) <= rank(t[j]) {
      assert t[j] in multiset(t);
      if t[j] != x {
        assert t[j] in s[1..];
      }
    }
  }

  function SortByRank<K>(s: seq<K>, rank: K -> int): (r: seq<K>)
    ensures RankSorted(r, rank) && multiset(r) == multiset(s)
  {
    if |s| == 0 then []
    else
      assert s == [s[0]] + s[1..];
      InsertByRank(s[0], SortByRank(s[1..], rank), rank)
  }

  /** ksort($a): same map, keys in ascending rank. */
  function KSort<K(==,!new), V>(a: PArray<K, V>, rank: K -> int): (r: PArray<K, V>)
    requires Valid(a)
    ensures Valid(r) && r.vals == a.vals
    ensures RankSorted(r.keys, rank)
    ensures multiset(r.keys) == multiset(a.keys)
  {
    var ks := SortByRank(a.keys, rank);
    assert forall k :: k in ks <==> k in a.keys by {
      forall k ensures k in ks <==> k in a.keys {
        assert k in ks <==> k in multiset(ks);
        assert k in a.keys <==> k in multiset(a.keys);
      }
    }
    DistinctPermutation(ks, a.keys);
    PArray(ks, a.vals)
  }

  /** Distinct keys sorted by a rank that tells them apart are strictly sorted. */
  lemma SortedDistinctIsStrict<K>(s: seq<K>, rank: K -> int)
    requires Distinct(s) && RankSorted(s, rank)
    requires forall x, y :: x in s && y in s && rank(x) == rank(y) ==> x == y
    ensures StrictlyRankSorted(s, rank)
  {
  }

  lemma {:induction false} WithoutKeepsOrder<K(!new)>(s: seq<K>, k: K, rank: K -> int)
    requires StrictlyRankSorted(s, rank)
    ensures StrictlyRankSorted(Without(s, k), rank)
  {
    if |s| > 0 {
      assert StrictlyRankSorted(s[1..], rank);
      WithoutKeepsOrder(s[1..], k, rank);
      if s[0] != k {
        var t := Without(s[1..], k);
        forall j | 0 <= j < |t| ensures rank(s[0]) < rank(t[j]) {
          assert t[j] in s[1..];
        }
      }
    }
  }
}
