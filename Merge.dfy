/**
 The "tomorrow cake too" pass (tomorrowCakeTooCheckModiy): walking the
 stack in calendar order, a cake day whose next calendar day is also a cake
 day gives up its names to that next day and disappears; the next day is
 then not checked itself.
 */
module Merge {
  import opened Calendar
  import opened Names
  import opened PhpArray
  import opened WorkingDays
  import opened CakeStack
  import opened Sequences

  /** One turn of the foreach with the skip flag down, for the i-th key of
      the snapshot. */
  function MergeOne(snap: Stack, i: nat, live: Stack): Stack
    requires i < |snap.keys| && snap.keys[i] in snap.vals
  {
    var d := snap.keys[i];
    var n := Next(d);
    if n in live.vals then Unset(Assign(live, n, SortedSet(live.vals[n] + snap.vals[d])), d) else live
  }

  /** One turn of the foreach: a turn with the skip flag up only lowers it. */
  function MergeTurn(snap: Stack, i: nat, w: Walk): Walk
    requires i < |snap.keys| && snap.keys[i] in snap.vals
  {
    if w.skip then Walk(false, w.stack)
    else Walk(Next(snap.keys[i]) in w.stack.vals, MergeOne(snap, i, w.stack))
  }

  /** The foreach from the i-th key of the snapshot on. */
  function MergeFrom(snap: Stack, i: nat, w: Walk): Walk
    requires Valid(snap) && i <= |snap.keys|
    decreases |snap.keys| - i
  {
    if i == |snap.keys| then w else MergeFrom(snap, i + 1, MergeTurn(snap, i, w))
  }

  function Merge(s: Stack): Stack
    requires Valid(s)
  {
    MergeFrom(s, 0, Walk(false, s)).stack
  }

  /** The stack the pass starts from: shaped, and in calendar order. */
  ghost predicate MergeReady(hs: seq<Date>, s: Stack)
  {
    IsStack(hs, s) && Chronological(s.keys)
  }

  lemma ReadyIsOrdered(hs: seq<Date>, s: Stack)
    requires MergeReady(hs, s)
    ensures Ordered(s)
  {
  }

  // ---------------------------------------------------------------------
  // Invariants of the foreach.

  /** The live stack stays in calendar order and keeps only keys of the
      snapshot. */
  ghost predicate Tracked(snap: Stack, live: Stack)
  {
    Valid(live) && Chronological(live.keys) && forall x :: x in live.vals ==> x in snap.vals
  }

  /** Every visited day has its snapshot names either on itself or, when it
      was dropped, on the next day, which comes before the key about to be
      visited or is that key, marked for skipping. */
  ghost predicate Placed(snap: Stack, i: nat, skip: bool, live: Stack)
    requires Valid(snap) && i <= |snap.keys|
  {
    forall j :: 0 <= j < i ==>
      var x := snap.keys[j];
      || (x in live.vals && Elems(snap.vals[x]) <= Elems(live.vals[x]))
      || (&& x !in live.vals && Next(x) in live.vals
          && Elems(snap.vals[x]) <= Elems(live.vals[Next(x)])
          && (i < |snap.keys| ==> Ord(Next(x)) < Ord(snap.keys[i]) || (skip && Next(x) == snap.keys[i])))
  }

  lemma MergeStart(s: Stack)
    requires Ordered(s)
    ensures Pending(s, 0, false, s) && Tracked(s, s) && Placed(s, 0, false, s)
  {
  }

  /** What one merging turn does to the map. */
  lemma MergeOneEffect(snap: Stack, i: nat, live: Stack)
    requires i < |snap.keys| && snap.keys[i] in snap.vals && Valid(live)
    requires Next(snap.keys[i]) in live.vals && Next(snap.keys[i]) != snap.keys[i]
    ensures MergeOne(snap, i, live).vals ==
      live.vals[Next(snap.keys[i]) := SortedSet(live.vals[Next(snap.keys[i])] + snap.vals[snap.keys[i]])] - {snap.keys[i]}
    ensures MergeOne(snap, i, live).keys == Without(live.keys, snap.keys[i])
  {
  }

  lemma MergeOneTracked(snap: Stack, i: nat, live: Stack)
    requires i < |snap.keys| && snap.keys[i] in snap.vals && ValidDate(snap.keys[i]) && Tracked(snap, live)
    ensures Tracked(snap, MergeOne(snap, i, live))
  {
    if Next(snap.keys[i]) in live.vals {
      MergeOneEffect(snap, i, live);
      ChronologicalWithout(live.keys, snap.keys[i]);
    }
  }

  lemma MergeOnePending(snap: Stack, i: nat, live: Stack)
    requires Ordered(snap) && i < |snap.keys| && Tracked(snap, live) && Pending(snap, i, false, live)
    ensures Pending(snap, i + 1, Next(snap.keys[i]) in live.vals, MergeOne(snap, i, live))
  {
    var d := snap.keys[i];
    if Next(d) in live.vals {
      NextKeyFollows(snap, i);
      MergeOneEffect(snap, i, live);
      var r := MergeOne(snap, i, live);
      forall j | i + 1 <= j < |snap.keys| ensures snap.keys[j] in r.vals {
        assert snap.keys[j] != d;
      }
      forall j | i + 1 < j < |snap.keys|
        ensures snap.keys[j] in r.vals && r.vals[snap.keys[j]] == snap.vals[snap.keys[j]]
      {
        assert snap.keys[j] != d && snap.keys[j] != snap.keys[i + 1];
      }
      var n := Next(d);
      assert Elems(r.vals[n]) == Elems(live.vals[n] + snap.vals[d]);
      ElemsConcat(live.vals[n], snap.vals[d]);
    }
  }

  lemma MergeOneShape(hs: seq<Date>, snap: Stack, i: nat, live: Stack)
    requires i < |snap.keys| && snap.keys[i] in snap.vals && ValidDate(snap.keys[i])
    requires IsStack(hs, live)
    ensures IsStack(hs, MergeOne(snap, i, live))
  {
    var d := snap.keys[i];
    var n := Next(d);
    if n in live.vals {
      MergeOneEffect(snap, i, live);
      var v := SortedSet(live.vals[n] + snap.vals[d]);
      assert live.vals[n][0] in v;
      var r := MergeOne(snap, i, live);
      forall x | x in r.vals ensures ValidDate(x) && IsWorkingDay(hs, x) && |r.vals[x]| > 0 && Sorted(r.vals[x]) {
        if x != n {
          assert r.vals[x] == live.vals[x];
        }
      }
    }
  }

  lemma MergeOneNames(snap: Stack, i: nat, live: Stack)
    requires i < |snap.keys| && snap.keys[i] in snap.vals && Valid(live) && ValidDate(snap.keys[i])
    requires snap.keys[i] in live.vals && live.vals[snap.keys[i]] == snap.vals[snap.keys[i]]
    ensures SameNames(MergeOne(snap, i, live).vals, live.vals)
  {
    var d := snap.keys[i];
    var n := Next(d);
    if n in live.vals {
      MergeOneEffect(snap, i, live);
      var v := SortedSet(live.vals[n] + snap.vals[d]);
      assert Elems(v) == Elems(live.vals[n] + snap.vals[d]);
      ElemsConcat(live.vals[n], snap.vals[d]);
      AllNamesMove(live.vals, d, n, v);
    }
  }

  lemma MergeOnePlaced(snap: Stack, i: nat, live: Stack)
    requires Ordered(snap) && i < |snap.keys| && Tracked(snap, live)
    requires Pending(snap, i, false, live) && Placed(snap, i, false, live)
    ensures Placed(snap, i + 1, Next(snap.keys[i]) in live.vals, MergeOne(snap, i, live))
  {
    if Next(snap.keys[i]) in live.vals {
      MergeOnePlacedMoved(snap, i, live);
    } else {
      MergeOnePlacedKept(snap, i, live);
    }
  }

  lemma MergeOnePlacedKept(snap: Stack, i: nat, live: Stack)
    requires Ordered(snap) && i < |snap.keys| && Next(snap.keys[i]) !in live.vals
    requires Pending(snap, i, false, live) && Placed(snap, i, false, live)
    ensures Placed(snap, i + 1, false, MergeOne(snap, i, live))
  {
    if i + 1 < |snap.keys| {
      assert Ord(snap.keys[i]) < Ord(snap.keys[i + 1]);
    }
  }

  lemma MergeOnePlacedMoved(snap: Stack, i: nat, live: Stack)
    requires Ordered(snap) && i < |snap.keys| && Tracked(snap, live) && Next(snap.keys[i]) in live.vals
    requires Pending(snap, i, false, live) && Placed(snap, i, false, live)
    ensures Placed(snap, i + 1, true, MergeOne(snap, i, live))
  {
    var d := snap.keys[i];
    var n := Next(d);
    var r := MergeOne(snap, i, live);
    NextKeyFollows(snap, i);
    MergeOneEffect(snap, i, live);
    var v := SortedSet(live.vals[n] + snap.vals[d]);
    assert Elems(v) == Elems(live.vals[n] + snap.vals[d]);
    ElemsConcat(live.vals[n], snap.vals[d]);
    assert Ord(d) < Ord(n);
    forall j | 0 <= j < i + 1
      ensures var x := snap.keys[j];
        || (x in r.vals && Elems(snap.vals[x]) <= Elems(r.vals[x]))
        || (&& x !in r.vals && Next(x) in r.vals
            && Elems(snap.vals[x]) <= Elems(r.vals[Next(x)])
            && (Ord(Next(x)) < Ord(snap.keys[i + 1]) || Next(x) == snap.keys[i + 1]))
    {
      var x := snap.keys[j];
      if j < i {
        assert Ord(x) < Ord(d);
      }
    }
  }

  lemma MergeSkipPlaced(snap: Stack, i: nat, live: Stack)
    requires Ordered(snap) && i < |snap.keys| && Placed(snap, i, true, live)
    requires snap.keys[i] in live.vals
    requires Elems(snap.vals[snap.keys[i]]) <= Elems(live.vals[snap.keys[i]])
    ensures Placed(snap, i + 1, false, live)
  {
    if i + 1 < |snap.keys| {
      assert Ord(snap.keys[i]) < Ord(snap.keys[i + 1]);
    }
  }

  // ---------------------------------------------------------------------
  // The whole foreach.

  /** A property of the walk that every turn keeps holds after the rest of
      the foreach. */
  lemma {:induction false} MergeFromKeeps(snap: Stack, i: nat, w: Walk, inv: (nat, Walk) -> bool)
    requires Valid(snap) && i <= |snap.keys| && inv(i, w)
    requires forall j: nat, v: Walk :: i <= j < |snap.keys| && inv(j, v) ==> inv(j + 1, MergeTurn(snap, j, v))
    ensures inv(|snap.keys|, MergeFrom(snap, i, w))
    decreases |snap.keys| - i
  {
    if i < |snap.keys| {
      MergeFromKeeps(snap, i + 1, MergeTurn(snap, i, w), inv);
    }
  }

  /** The invariant of the foreach, for a walk over the snapshot of the
      stack s. */
  ghost predicate MergeInv(hs: seq<Date>, snap: Stack, i: nat, w: Walk)
    requires Valid(snap) && i <= |snap.keys|
  {
    && Tracked(snap, w.stack)
    && Pending(snap, i, w.skip, w.stack)
    && IsStack(hs, w.stack)
    && SameNames(w.stack.vals, snap.vals)
    && Placed(snap, i, w.skip, w.stack)
  }

  lemma MergeTurnInv(hs: seq<Date>, snap: Stack, i: nat, w: Walk)
    requires Ordered(snap) && i < |snap.keys| && MergeInv(hs, snap, i, w)
    ensures MergeInv(hs, snap, i + 1, MergeTurn(snap, i, w))
  {
    if w.skip {
      MergeSkipPlaced(snap, i, w.stack);
    } else {
      MergeOneTracked(snap, i, w.stack);
      MergeOnePending(snap, i, w.stack);
      MergeOneShape(hs, snap, i, w.stack);
      MergeOneNames(snap, i, w.stack);
      SameNamesTransitive(MergeOne(snap, i, w.stack).vals, w.stack.vals, snap.vals);
      MergeOnePlaced(snap, i, w.stack);
    }
  }

  lemma MergeFromInv(hs: seq<Date>, s: Stack)
    requires MergeReady(hs, s)
    ensures Ordered(s) && MergeInv(hs, s, |s.keys|, MergeFrom(s, 0, Walk(false, s)))
  {
    ReadyIsOrdered(hs, s);
    MergeStart(s);
    var inv := (j: nat, v: Walk) => j <= |s.keys| && MergeInv(hs, s, j, v);
    forall j: nat, v: Walk | j < |s.keys| && inv(j, v) ensures inv(j + 1, MergeTurn(s, j, v)) {
      MergeTurnInv(hs, s, j, v);
    }
    MergeFromKeeps(s, 0, Walk(false, s), inv);
  }

  /** tomorrowCakeTooCheckModiy keeps the stack shaped and in calendar
      order, adds no day, loses no name and brings in none, and leaves
      every day's names either on that day or, if the day was dropped, on
      the next calendar day. */
  lemma MergeSpec(hs: seq<Date>, s: Stack)
    requires MergeReady(hs, s)
    ensures IsStack(hs, Merge(s)) && Chronological(Merge(s).keys)
    ensures forall x :: x in Merge(s).vals ==> x in s.vals
    ensures AllNames(Merge(s).vals) == AllNames(s.vals)
    ensures forall x :: x in s.vals ==>
      || (x in Merge(s).vals && Elems(s.vals[x]) <= Elems(Merge(s).vals[x]))
      || (x !in Merge(s).vals && Next(x) in Merge(s).vals && Elems(s.vals[x]) <= Elems(Merge(s).vals[Next(x)]))
  {
    MergeFromInv(hs, s);
    var r := Merge(s);
    forall x | x in s.vals
      ensures || (x in r.vals && Elems(s.vals[x]) <= Elems(r.vals[x]))
              || (x !in r.vals && Next(x) in r.vals && Elems(s.vals[x]) <= Elems(r.vals[Next(x)]))
    {
      var j :| 0 <= j < |s.keys| && s.keys[j] == x;
    }
  }

  /** A name on day c is afterwards on c or on the day after it. */
  lemma MergeKeepsName(hs: seq<Date>, s: Stack, c: Date, x: string)
    requires MergeReady(hs, s) && c in s.vals && x in s.vals[c]
    ensures var d := if c in Merge(s).vals then c else Next(c);
      d in Merge(s).vals && x in Merge(s).vals[d] && Ord(c) <= Ord(d)
  {
    MergeSpec(hs, s);
    assert x in Elems(s.vals[c]);
  }

  /** One merging turn keeps names apart: the day's names join the next
      day's and leave the day. */
  lemma MergeOneDisjoint(snap: Stack, i: nat, live: Stack)
    requires i < |snap.keys| && snap.keys[i] in snap.vals && Valid(live)
    requires Pending(snap, i, false, live) && Disjoint(live.vals)
    ensures Disjoint(MergeOne(snap, i, live).vals)
  {
    var d := snap.keys[i];
    var n := Next(d);
    if n in live.vals {
      assert n != d;
      MergeOneEffect(snap, i, live);
      var v := SortedSet(live.vals[n] + snap.vals[d]);
      assert Elems(v) == Elems(live.vals[n] + snap.vals[d]);
      ElemsConcat(live.vals[n], snap.vals[d]);
      MoveDisjoint(live.vals, d, n, v);
    }
  }

  /** When no name is on two days of the stack, none is on two days after
      tomorrowCakeTooCheckModiy either. */
  lemma MergeDisjoint(hs: seq<Date>, s: Stack)
    requires MergeReady(hs, s) && Disjoint(s.vals)
    ensures Disjoint(Merge(s).vals)
  {
    ReadyIsOrdered(hs, s);
    MergeStart(s);
    var inv := (j: nat, v: Walk) => j <= |s.keys| && MergeInv(hs, s, j, v) && Disjoint(v.stack.vals);
    forall j: nat, v: Walk | j < |s.keys| && inv(j, v) ensures inv(j + 1, MergeTurn(s, j, v)) {
      MergeTurnDisjoint(hs, s, j, v);
    }
    MergeFromKeeps(s, 0, Walk(false, s), inv);
  }

  lemma MergeTurnDisjoint(hs: seq<Date>, snap: Stack, i: nat, w: Walk)
    requires Ordered(snap) && i < |snap.keys| && MergeInv(hs, snap, i, w) && Disjoint(w.stack.vals)
    ensures MergeInv(hs, snap, i + 1, MergeTurn(snap, i, w)) && Disjoint(MergeTurn(snap, i, w).stack.vals)
  {
    MergeTurnInv(hs, snap, i, w);
    if !w.skip {
      MergeOneDisjoint(snap, i, w.stack);
    }
  }

  // ---------------------------------------------------------------------
  // A stack made of pairs of consecutive days: each pair merges into its
  // later day, and the flag then skips that day.

  /** Two turns of the foreach, the first merging its day into the next
      key, the second only lowering the flag. */
  lemma MergeTwoTurns(snap: Stack, i: nat, live: Stack)
    requires Valid(snap) && i + 2 <= |snap.keys|
    requires Next(snap.keys[i]) in live.vals
    ensures MergeFrom(snap, i, Walk(false, live)) ==
      MergeFrom(snap, i + 2, Walk(false, MergeOne(snap, i, live)))
  {
  }

  /** A merging turn on a key with its next day further on: the key goes,
      and the next day gets both lists of names. */
  lemma MergeStep(snap: Stack, i: nat, live: Stack, a: seq<Date>, c: seq<Date>)
    requires i < |snap.keys| && snap.keys[i] in snap.vals && Valid(live)
    requires live.keys == a + [snap.keys[i]] + c && Next(snap.keys[i]) in c
    ensures var d := snap.keys[i];
      && Valid(MergeOne(snap, i, live))
      && MergeOne(snap, i, live).keys == a + c
      && MergeOne(snap, i, live).vals ==
           live.vals[Next(d) := SortedSet(live.vals[Next(d)] + snap.vals[d])] - {d}
  {
    var d := snap.keys[i];
    DistinctSplit(a, d, c);
    MergeOneEffect(snap, i, live);
    WithoutOnce(a, d, c);
  }

  /** Keys in pairs, each pair a day and the calendar day after it. */
  predicate Paired(ks: seq<Date>)
    decreases |ks|
  {
    |ks| == 0 || (|ks| >= 2 && ks[1] == Next(ks[0]) && Paired(ks[2..]))
  }

  /** The second day of every pair. */
  function Laters(ks: seq<Date>): (r: seq<Date>)
    requires Paired(ks)
    decreases |ks|
  {
    if |ks| == 0 then [] else [ks[1]] + Laters(ks[2..])
  }

  /** The second day of every pair, holding the names of both days. */
  function PairedVals(ks: seq<Date>, vals: map<Date, seq<string>>): (m: map<Date, seq<string>>)
    requires Paired(ks) && forall k :: k in ks ==> k in vals
    ensures forall k :: k in m ==> k in ks
    decreases |ks|
  {
    if |ks| == 0 then map[]
    else
      assert forall k :: k in ks[2..] ==> k in ks;
      PairedVals(ks[2..], vals)[ks[1] := SortedSet(vals[ks[1]] + vals[ks[0]])]
  }

  /** The entries of m on the keys listed in a. */
  function Keep(m: map<Date, seq<string>>, a: seq<Date>): (r: map<Date, seq<string>>)
    ensures forall k :: k in r <==> k in a && k in m
  {
    map k | k in a && k in m :: m[k]
  }

  /** A stack of consecutive pairs: tomorrowCakeTooCheckModiy merges each
      first day into the second and keeps the second days in order. */
  lemma MergePaired(s: Stack)
    requires Valid(s) && Paired(s.keys)
    ensures Merge(s) == PArray(Laters(s.keys), PairedVals(s.keys, s.vals))
  {
    assert s.keys[0..] == s.keys;
    MergePairedFrom(s, 0, s, []);
    KeepNone(s.vals, PairedVals(s.keys, s.vals));
    assert [] + Laters(s.keys) == Laters(s.keys);
  }

  lemma KeepNone(m: map<Date, seq<string>>, p: map<Date, seq<string>>)
    ensures Keep(m, []) + p == p
  {
    assert Keep(m, []) == map[];
  }

  /** From the i-th key on, the snapshot lists consecutive pairs, which the
      live stack still holds as they were: the rest of the foreach merges
      each pair into its second day and leaves the days before alone. */
  lemma {:induction false} MergePairedFrom(snap: Stack, i: nat, live: Stack, a: seq<Date>)
    requires Valid(snap) && i <= |snap.keys| && Paired(snap.keys[i..])
    requires Valid(live) && live.keys == a + snap.keys[i..]
    requires forall k :: k in snap.keys[i..] ==> k in live.vals && live.vals[k] == snap.vals[k]
    ensures MergeFrom(snap, i, Walk(false, live)).stack ==
      PArray(a + Laters(snap.keys[i..]), Keep(live.vals, a) + PairedVals(snap.keys[i..], snap.vals))
    decreases |snap.keys| - i
  {
    if i == |snap.keys| {
      assert live.keys == a;
      assert live.vals == Keep(live.vals, a);
    } else {
      var l := MergePairedStep(snap, i, live, a);
      var n := snap.keys[i + 1];
      MergePairedFrom(snap, i + 2, l, a + [n]);
      PairedLaters(snap.keys[i..], a);
      PairedValsAssemble(snap.keys[i..], snap.vals, Keep(live.vals, a));
    }
  }

  /** The first two turns on a pair. */
  lemma MergePairedStep(snap: Stack, i: nat, live: Stack, a: seq<Date>) returns (l: Stack)
    requires Valid(snap) && i < |snap.keys| && Paired(snap.keys[i..])
    requires Valid(live) && live.keys == a + snap.keys[i..]
    requires forall k :: k in snap.keys[i..] ==> k in live.vals && live.vals[k] == snap.vals[k]
    ensures i + 2 <= |snap.keys| && Paired(snap.keys[i + 2..])
    ensures var n := snap.keys[i + 1];
      && Valid(l) && l.keys == a + [n] + snap.keys[i + 2..]
      && (forall k :: k in snap.keys[i + 2..] ==> k in l.vals && l.vals[k] == snap.vals[k])
      && Keep(l.vals, a + [n]) == Keep(live.vals, a)[n := SortedSet(snap.vals[n] + snap.vals[snap.keys[i]])]
      && MergeFrom(snap, i, Walk(false, live)) == MergeFrom(snap, i + 2, Walk(false, l))
  {
    var d := snap.keys[i];
    var n := snap.keys[i + 1];
    var rest := snap.keys[i + 2..];
    PairedSplit(snap.keys, i, live.keys, a);
    MergeStep(snap, i, live, a, [n] + rest);
    MergeTwoTurns(snap, i, live);
    l := MergeOne(snap, i, live);
    KeepStep(live.vals, l.vals, a, d, n, SortedSet(live.vals[n] + snap.vals[d]), rest);
  }

  /** A pair at the head of the keys still to visit. */
  lemma PairedSplit(keys: seq<Date>, i: nat, live: seq<Date>, a: seq<Date>)
    requires i < |keys| && Paired(keys[i..]) && Distinct(live) && live == a + keys[i..]
    ensures i + 2 <= |keys| && Paired(keys[i + 2..]) && keys[i + 1] == Next(keys[i])
    ensures live == a + [keys[i]] + ([keys[i + 1]] + keys[i + 2..])
    ensures keys[i] !in a && keys[i] !in [keys[i + 1]] + keys[i + 2..]
    ensures keys[i + 1] !in a && keys[i + 1] !in keys[i + 2..]
    ensures a + ([keys[i + 1]] + keys[i + 2..]) == a + [keys[i + 1]] + keys[i + 2..]
  {
    var ks := keys[i..];
    var d := keys[i];
    var n := keys[i + 1];
    var rest := keys[i + 2..];
    assert ks == [d] + ([n] + rest) && ks[2..] == rest;
    assert live == a + [d] + ([n] + rest) == (a + [d]) + [n] + rest;
    DistinctSplit(a + [d], n, rest);
    DistinctSplit(a, d, [n] + rest);
  }

  /** What a merging turn does to the days before the pair, the pair, and
      the days after it. */
  lemma KeepStep(m: map<Date, seq<string>>, l: map<Date, seq<string>>, a: seq<Date>, d: Date, n: Date,
                 v: seq<string>, rest: seq<Date>)
    requires l == m[n := v] - {d} && d != n && d !in a && n !in a && d !in rest && n !in rest
    ensures Keep(l, a + [n]) == Keep(m, a)[n := v]
    ensures forall k :: k in rest && k in m ==> k in l && l[k] == m[k]
  {
  }

  /** The later days of the pairs, put back together. */
  lemma PairedLaters(ks: seq<Date>, a: seq<Date>)
    requires |ks| >= 2 && Paired(ks)
    ensures a + [ks[1]] + Laters(ks[2..]) == a + Laters(ks)
  {
    assert Laters(ks) == [ks[1]] + Laters(ks[2..]);
    AppendAssoc(a, [ks[1]], Laters(ks[2..]));
  }

  /** The merged names of the pairs, put back together. */
  lemma PairedValsAssemble(ks: seq<Date>, vals: map<Date, seq<string>>, kept: map<Date, seq<string>>)
    requires |ks| >= 2 && Paired(ks) && (forall k :: k in ks ==> k in vals)
    requires ks[1] !in ks[2..]
    ensures var v := SortedSet(vals[ks[1]] + vals[ks[0]]);
      kept[ks[1] := v] + PairedVals(ks[2..], vals) == kept + PairedVals(ks, vals)
  {
    var n := ks[1];
    var v := SortedSet(vals[n] + vals[ks[0]]);
    var pv := PairedVals(ks[2..], vals);
    assert PairedVals(ks, vals) == pv[n := v];
    UpdateUnion(kept, pv, n, v);
  }

  lemma UpdateUnion(m: map<Date, seq<string>>, p: map<Date, seq<string>>, n: Date, v: seq<string>)
    requires n !in p
    ensures m[n := v] + p == m + p[n := v]
  {
  }

  /** The merged stack holds exactly the later day of each pair. */
  lemma {:induction false} PairedDomain(ks: seq<Date>, vals: map<Date, seq<string>>)
    requires Paired(ks) && forall k :: k in ks ==> k in vals
    ensures forall k :: k in PairedVals(ks, vals) <==> k in Laters(ks)
    decreases |ks|
  {
    if |ks| > 0 {
      assert forall k :: k in ks[2..] ==> k in ks;
      PairedDomain(ks[2..], vals);
    }
  }

  /** The later day of the j-th pair carries both days' names. */
  lemma {:induction false} PairedAt(ks: seq<Date>, vals: map<Date, seq<string>>, j: nat)
    requires Paired(ks) && Distinct(ks) && forall k :: k in ks ==> k in vals
    requires 2 * j + 1 < |ks|
    ensures ks[2 * j + 1] in PairedVals(ks, vals)
    ensures PairedVals(ks, vals)[ks[2 * j + 1]] == SortedSet(vals[ks[2 * j + 1]] + vals[ks[2 * j]])
    decreases j
  {
    assert forall k :: k in ks[2..] ==> k in ks;
    if j > 0 {
      assert ks[2 * j + 1] == ks[2..][2 * (j - 1) + 1] && ks[2 * j] == ks[2..][2 * (j - 1)];
      assert ks[1] != ks[2 * j + 1];
      PairedAt(ks[2..], vals, j - 1);
    }
  }
}
