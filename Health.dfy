/**
 The health check pass (healthCheckModify): walking the stack in key order,
 a cake day whose previous calendar day is also a cake day hands its names
 to its next working day, merged with any names already there, and
 disappears.  As written, the pass also skips the key that follows every
 move; HealthAsWritten models that, Health is the pass without the skip,
 which is the one that leaves no two cake days in a row.
 */
module Health {
  import opened Calendar
  import opened Names
  import opened PhpArray
  import opened WorkingDays
  import opened CakeStack
  import opened Sequences

  /** The list a move leaves on the next working day t: the names already
      there and the moved ones, each once and sorted, or just the moved
      names sorted when t was no cake day yet. */
  function MovedNames(live: Stack, t: Date, names: seq<string>): (v: seq<string>)
    ensures Sorted(v)
    ensures Elems(v) == (if t in live.vals then Elems(live.vals[t]) else {}) + Elems(names)
    ensures |names| > 0 ==> |v| > 0
  {
    if t in live.vals then
      ElemsConcat(live.vals[t], names);
      var v := SortedSet(live.vals[t] + names);
      assert |names| > 0 ==> names[0] in v;
      v
    else
      ElemsSortNames(names);
      assert |SortNames(names)| == |multiset(names)|;
      SortNames(names)
  }

  /** One turn of the foreach with the skip flag down, for the i-th key of
      the snapshot (the names moved are the snapshot's). */
  function HealthOne(hs: seq<Date>, snap: Stack, i: nat, live: Stack): Stack
    requires i < |snap.keys| && snap.keys[i] in snap.vals && ValidDate(snap.keys[i])
  {
    var d := snap.keys[i];
    if Prev(d) in live.vals then
      var t := NextWorkingDay(hs, d);
      Unset(Assign(live, t, MovedNames(live, t, snap.vals[d])), d)
    else live
  }

  /** The pass without the skip flag, from the i-th key of the snapshot on. */
  function HealthFrom(hs: seq<Date>, snap: Stack, i: nat, live: Stack): Stack
    requires Ordered(snap) && i <= |snap.keys|
    decreases |snap.keys| - i
  {
    if i == |snap.keys| then live else HealthFrom(hs, snap, i + 1, HealthOne(hs, snap, i, live))
  }

  function Health(hs: seq<Date>, s: Stack): Stack
    requires Ordered(s)
  {
    HealthFrom(hs, s, 0, s)
  }

  /** One turn of the foreach as written: a move raises the skip flag, and a
      turn with the flag up only lowers it. */
  function HealthTurn(hs: seq<Date>, snap: Stack, i: nat, w: Walk): Walk
    requires i < |snap.keys| && snap.keys[i] in snap.vals && ValidDate(snap.keys[i])
  {
    if w.skip then Walk(false, w.stack)
    else Walk(Prev(snap.keys[i]) in w.stack.vals, HealthOne(hs, snap, i, w.stack))
  }

  function HealthFromAsWritten(hs: seq<Date>, snap: Stack, i: nat, w: Walk): Walk
    requires Ordered(snap) && i <= |snap.keys|
    decreases |snap.keys| - i
  {
    if i == |snap.keys| then w else HealthFromAsWritten(hs, snap, i + 1, HealthTurn(hs, snap, i, w))
  }

  function HealthAsWritten(hs: seq<Date>, s: Stack): Stack
    requires Ordered(s)
  {
    HealthFromAsWritten(hs, s, 0, Walk(false, s)).stack
  }

  // ---------------------------------------------------------------------
  // Facts about one move.

  /** Every key is a valid working day. */
  ghost predicate WorkingKeys(hs: seq<Date>, s: Stack)
  {
    Valid(s) && forall x :: x in s.vals ==> ValidDate(x) && IsWorkingDay(hs, x)
  }

  /** The stack the pass starts from, as far as the proofs need it. */
  ghost predicate HealthReady(hs: seq<Date>, s: Stack)
  {
    Ordered(s) && WorkingKeys(hs, s)
  }

  lemma StackIsReady(hs: seq<Date>, s: Stack)
    requires IsStack(hs, s) && Chronological(s.keys)
    ensures HealthReady(hs, s)
  {
  }

  /** The day before d's next working day is d itself or a closure, so it is
      no key of a stack of working days other than d. */
  lemma BeforeNextWorkingDay(hs: seq<Date>, d: Date, s: Stack)
    requires ValidDate(d) && WorkingKeys(hs, s)
    ensures Prev(NextWorkingDay(hs, d)) == d || Prev(NextWorkingDay(hs, d)) !in s.vals
  {
    var t := NextWorkingDay(hs, d);
    var p := Prev(t);
    if p != d && p in s.vals {
      PrevIsImmediate(t, d);
      OrdInjectiveContra(d, p);
      NextWorkingDaySkipsOnlyClosures(hs, d, p);
    }
  }

  /** What a move does to the map. */
  lemma HealthOneEffect(hs: seq<Date>, snap: Stack, i: nat, live: Stack)
    requires i < |snap.keys| && snap.keys[i] in snap.vals && ValidDate(snap.keys[i])
    requires Prev(snap.keys[i]) in live.vals
    ensures HealthOne(hs, snap, i, live).vals ==
      live.vals[NextWorkingDay(hs, snap.keys[i]) :=
        MovedNames(live, NextWorkingDay(hs, snap.keys[i]), snap.vals[snap.keys[i]])] - {snap.keys[i]}
    ensures NextWorkingDay(hs, snap.keys[i]) != snap.keys[i]
  {
  }

  lemma HealthOneWorking(hs: seq<Date>, snap: Stack, i: nat, live: Stack)
    requires i < |snap.keys| && snap.keys[i] in snap.vals && ValidDate(snap.keys[i])
    requires WorkingKeys(hs, live)
    ensures WorkingKeys(hs, HealthOne(hs, snap, i, live))
  {
  }

  /** The keys still to be visited are all there and, but for the current
      one, hold their snapshot names; the current one holds at least its
      snapshot names, and exactly those when it is about to move. */
  ghost predicate HealthPending(snap: Stack, i: nat, live: Stack)
  {
    && Pending(snap, i, true, live)
    && (i < |snap.keys| && Prev(snap.keys[i]) in live.vals ==>
          snap.keys[i] in snap.vals && snap.keys[i] in live.vals
          && live.vals[snap.keys[i]] == snap.vals[snap.keys[i]])
  }

  /** Every key is a key still to be visited or lies before the current one. */
  ghost predicate Behind(snap: Stack, i: nat, live: Stack)
  {
    i < |snap.keys| ==>
      forall x :: x in live.vals ==> x in snap.keys[i..] || Ord(x) < Ord(snap.keys[i])
  }

  /** No key outside those still to be visited follows a cake day. */
  ghost predicate Settled(snap: Stack, i: nat, live: Stack)
    requires i <= |snap.keys|
  {
    forall x :: x in live.vals && x !in snap.keys[i..] ==> Prev(x) !in live.vals
  }

  /** Where a visited day's names are, before and after a move. */
  ghost predicate PlacedAt(hs: seq<Date>, snap: Stack, x: Date, live: Stack)
    requires x in snap.vals && ValidDate(x)
  {
    || (x in live.vals && Elems(snap.vals[x]) <= Elems(live.vals[x]))
    || (&& x !in live.vals && NextWorkingDay(hs, x) in live.vals
        && Elems(snap.vals[x]) <= Elems(live.vals[NextWorkingDay(hs, x)]))
  }

  /** Every visited day has its snapshot names either on itself or, when it
      moved, on its next working day. */
  ghost predicate HealthPlaced(hs: seq<Date>, snap: Stack, i: nat, live: Stack)
    requires Ordered(snap) && i <= |snap.keys|
  {
    forall j :: 0 <= j < i ==> PlacedAt(hs, snap, snap.keys[j], live)
  }

  lemma HealthStart(hs: seq<Date>, s: Stack)
    requires HealthReady(hs, s)
    ensures HealthPending(s, 0, s) && Behind(s, 0, s) && Settled(s, 0, s) && HealthPlaced(hs, s, 0, s)
  {
    assert s.keys[0..] == s.keys;
  }

  /** A move leaves the keys still to be visited, and their names, alone. */
  lemma HealthOneKeepsPending(hs: seq<Date>, snap: Stack, i: nat, live: Stack)
    requires HealthReady(hs, snap) && i < |snap.keys| && HealthPending(snap, i, live)
    ensures Pending(snap, i + 1, true, HealthOne(hs, snap, i, live))
  {
    var d := snap.keys[i];
    var r := HealthOne(hs, snap, i, live);
    if Prev(d) in live.vals {
      var t := NextWorkingDay(hs, d);
      HealthOneEffect(hs, snap, i, live);
      forall j | i + 1 <= j < |snap.keys| ensures snap.keys[j] in r.vals {
        assert snap.keys[j] != d;
      }
      if i + 1 < |snap.keys| {
        NextWorkingDayIsLeast(hs, d, snap.keys[i + 1]);
        forall j | i + 1 < j < |snap.keys|
          ensures snap.keys[j] in r.vals && r.vals[snap.keys[j]] == snap.vals[snap.keys[j]]
        {
          assert snap.keys[j] != d && Ord(t) < Ord(snap.keys[j]);
        }
      }
    }
  }

  /** The next key, when it is about to move, still holds just its
      snapshot names. */
  lemma HealthOneNextIntact(hs: seq<Date>, snap: Stack, i: nat, live: Stack)
    requires HealthReady(hs, snap) && i + 1 < |snap.keys| && WorkingKeys(hs, live) && HealthPending(snap, i, live)
    requires Pending(snap, i + 1, true, HealthOne(hs, snap, i, live))
    ensures var r := HealthOne(hs, snap, i, live); var e := snap.keys[i + 1];
      Prev(e) in r.vals ==> r.vals[e] == snap.vals[e]
  {
    var d := snap.keys[i];
    var e := snap.keys[i + 1];
    if Prev(d) in live.vals {
      var t := NextWorkingDay(hs, d);
      HealthOneEffect(hs, snap, i, live);
      if e == t {
        BeforeNextWorkingDay(hs, d, live);
      }
    }
  }

  lemma HealthOnePending(hs: seq<Date>, snap: Stack, i: nat, live: Stack)
    requires HealthReady(hs, snap) && i < |snap.keys| && WorkingKeys(hs, live) && HealthPending(snap, i, live)
    ensures HealthPending(snap, i + 1, HealthOne(hs, snap, i, live))
  {
    HealthOneKeepsPending(hs, snap, i, live);
    if i + 1 < |snap.keys| {
      HealthOneNextIntact(hs, snap, i, live);
    }
  }

  lemma HealthOneBehind(hs: seq<Date>, snap: Stack, i: nat, live: Stack)
    requires Ordered(snap) && i < |snap.keys| && Valid(live) && Behind(snap, i, live)
    requires i + 1 < |snap.keys| ==> IsWorkingDay(hs, snap.keys[i + 1])
    ensures Behind(snap, i + 1, HealthOne(hs, snap, i, live))
  {
    if i + 1 < |snap.keys| {
      var d := snap.keys[i];
      var e := snap.keys[i + 1];
      var r := HealthOne(hs, snap, i, live);
      SuffixShrinks(snap.keys, i);
      assert e in snap.keys[i + 1..] by { assert snap.keys[i + 1..][0] == e; }
      if Prev(d) in live.vals {
        var t := NextWorkingDay(hs, d);
        HealthOneEffect(hs, snap, i, live);
        NextWorkingDayIsLeast(hs, d, e);
        if Ord(t) == Ord(e) {
          OrdInjective(t, e);
        }
      }
      forall x | x in r.vals ensures x in snap.keys[i + 1..] || Ord(x) < Ord(e) {
      }
    }
  }

  lemma HealthOneSettled(hs: seq<Date>, snap: Stack, i: nat, live: Stack)
    requires HealthReady(hs, snap) && i < |snap.keys| && WorkingKeys(hs, live)
    requires HealthPending(snap, i, live) && Behind(snap, i, live) && Settled(snap, i, live)
    ensures Settled(snap, i + 1, HealthOne(hs, snap, i, live))
  {
    var d := snap.keys[i];
    var r := HealthOne(hs, snap, i, live);
    SuffixShrinks(snap.keys, i);
    if Prev(d) in live.vals {
      var t := NextWorkingDay(hs, d);
      HealthOneEffect(hs, snap, i, live);
      BeforeNextWorkingDay(hs, d, live);
      forall x | x in r.vals && x !in snap.keys[i + 1..] ensures Prev(x) !in r.vals {
        if x != t {
          assert Ord(Prev(x)) < Ord(x) < Ord(d) < Ord(t);
        }
      }
    }
  }

  lemma HealthOneNames(hs: seq<Date>, snap: Stack, i: nat, live: Stack)
    requires i < |snap.keys| && snap.keys[i] in snap.vals && ValidDate(snap.keys[i])
    requires Valid(live) && HealthPending(snap, i, live)
    ensures SameNames(HealthOne(hs, snap, i, live).vals, live.vals)
  {
    var d := snap.keys[i];
    if Prev(d) in live.vals {
      var t := NextWorkingDay(hs, d);
      HealthOneEffect(hs, snap, i, live);
      AllNamesMove(live.vals, d, t, MovedNames(live, t, snap.vals[d]));
    }
  }

  lemma HealthOneShape(hs: seq<Date>, snap: Stack, i: nat, live: Stack)
    requires i < |snap.keys| && snap.keys[i] in snap.vals && ValidDate(snap.keys[i])
    requires IsStack(hs, live) && HealthPending(snap, i, live)
    ensures IsStack(hs, HealthOne(hs, snap, i, live))
  {
    var d := snap.keys[i];
    if Prev(d) in live.vals {
      var t := NextWorkingDay(hs, d);
      HealthOneEffect(hs, snap, i, live);
      var r := HealthOne(hs, snap, i, live);
      forall x | x in r.vals ensures ValidDate(x) && IsWorkingDay(hs, x) && |r.vals[x]| > 0 && Sorted(r.vals[x]) {
        if x != t {
          assert r.vals[x] == live.vals[x];
        }
      }
    }
  }

  /** A move of the i-th key leaves an earlier day's names in place. */
  lemma HealthOnePlacedEarlier(hs: seq<Date>, snap: Stack, i: nat, live: Stack, j: nat)
    requires Ordered(snap) && j < i < |snap.keys| && WorkingKeys(hs, live) && Prev(snap.keys[i]) in live.vals
    requires PlacedAt(hs, snap, snap.keys[j], live)
    ensures PlacedAt(hs, snap, snap.keys[j], HealthOne(hs, snap, i, live))
  {
    var d := snap.keys[i];
    var x := snap.keys[j];
    var t := NextWorkingDay(hs, d);
    var r := HealthOne(hs, snap, i, live);
    HealthOneEffect(hs, snap, i, live);
    assert x != d;
    if x in live.vals {
      assert Ord(x) < Ord(d) < Ord(t);
      assert r.vals[x] == live.vals[x];
    } else {
      var u := NextWorkingDay(hs, x);
      BeforeNextWorkingDay(hs, x, live);
      assert u != d;
      if u == t {
        assert Elems(live.vals[t]) <= Elems(r.vals[t]);
      } else {
        assert r.vals[u] == live.vals[u];
      }
    }
  }

  /** After its own turn, the i-th key's names are on it or, when it
      moved, on its next working day. */
  lemma HealthOnePlacedCurrent(hs: seq<Date>, snap: Stack, i: nat, live: Stack)
    requires Ordered(snap) && i < |snap.keys| && HealthPending(snap, i, live)
    ensures PlacedAt(hs, snap, snap.keys[i], HealthOne(hs, snap, i, live))
  {
    if Prev(snap.keys[i]) in live.vals {
      HealthOneEffect(hs, snap, i, live);
    }
  }

  /** After the turn for the i-th key, the j-th key's names are in place. */
  lemma HealthOnePlacedAt(hs: seq<Date>, snap: Stack, i: nat, live: Stack, j: nat)
    requires HealthReady(hs, snap) && j <= i < |snap.keys| && WorkingKeys(hs, live)
    requires HealthPending(snap, i, live)
    requires j < i ==> PlacedAt(hs, snap, snap.keys[j], live)
    ensures PlacedAt(hs, snap, snap.keys[j], HealthOne(hs, snap, i, live))
  {
    if j == i {
      HealthOnePlacedCurrent(hs, snap, i, live);
    } else if Prev(snap.keys[i]) in live.vals {
      HealthOnePlacedEarlier(hs, snap, i, live, j);
    }
  }

  lemma HealthOnePlaced(hs: seq<Date>, snap: Stack, i: nat, live: Stack)
    requires HealthReady(hs, snap) && i < |snap.keys| && WorkingKeys(hs, live)
    requires HealthPending(snap, i, live) && HealthPlaced(hs, snap, i, live)
    ensures HealthPlaced(hs, snap, i + 1, HealthOne(hs, snap, i, live))
  {
    forall j | 0 <= j < i + 1 ensures PlacedAt(hs, snap, snap.keys[j], HealthOne(hs, snap, i, live)) {
      HealthOnePlacedAt(hs, snap, i, live, j);
    }
  }

  // ---------------------------------------------------------------------
  // The pass without the skip flag.

  /** A property of the live stack that every turn keeps holds after the
      rest of the foreach. */
  lemma {:induction false} HealthFromKeeps(hs: seq<Date>, snap: Stack, i: nat, live: Stack, inv: (nat, Stack) -> bool)
    requires Ordered(snap) && i <= |snap.keys| && inv(i, live)
    requires forall j: nat, t: Stack :: i <= j < |snap.keys| && inv(j, t) ==> inv(j + 1, HealthOne(hs, snap, j, t))
    ensures inv(|snap.keys|, HealthFrom(hs, snap, i, live))
    decreases |snap.keys| - i
  {
    if i < |snap.keys| {
      HealthFromKeeps(hs, snap, i + 1, HealthOne(hs, snap, i, live), inv);
    }
  }

  /** The invariant of the foreach, for a pass over the snapshot snap. */
  ghost predicate HealthInv(hs: seq<Date>, snap: Stack, i: nat, live: Stack)
    requires Ordered(snap) && i <= |snap.keys|
  {
    && IsStack(hs, live)
    && HealthPending(snap, i, live)
    && Behind(snap, i, live)
    && Settled(snap, i, live)
    && SameNames(live.vals, snap.vals)
    && HealthPlaced(hs, snap, i, live)
  }

  lemma HealthOneInv(hs: seq<Date>, snap: Stack, i: nat, live: Stack)
    requires HealthReady(hs, snap) && i < |snap.keys| && HealthInv(hs, snap, i, live)
    ensures HealthInv(hs, snap, i + 1, HealthOne(hs, snap, i, live))
  {
    assert WorkingKeys(hs, live);
    HealthOnePending(hs, snap, i, live);
    HealthOneBehind(hs, snap, i, live);
    HealthOneSettled(hs, snap, i, live);
    HealthOneShape(hs, snap, i, live);
    HealthOneNames(hs, snap, i, live);
    SameNamesTransitive(HealthOne(hs, snap, i, live).vals, live.vals, snap.vals);
    HealthOnePlaced(hs, snap, i, live);
  }

  lemma HealthFromInv(hs: seq<Date>, s: Stack)
    requires IsStack(hs, s) && Chronological(s.keys)
    ensures HealthReady(hs, s) && HealthInv(hs, s, |s.keys|, Health(hs, s))
  {
    StackIsReady(hs, s);
    HealthStart(hs, s);
    var inv := (j: nat, t: Stack) => j <= |s.keys| && HealthInv(hs, s, j, t);
    forall j: nat, t: Stack | j < |s.keys| && inv(j, t) ensures inv(j + 1, HealthOne(hs, s, j, t)) {
      HealthOneInv(hs, s, j, t);
    }
    HealthFromKeeps(hs, s, 0, s, inv);
  }

  /** healthCheckModify without the skip flag keeps the stack shaped,
      leaves no cake day on the day after another, loses no name and brings
      in none, and leaves every day's names either on that day or, if the
      day was dropped, on its next working day. */
  lemma HealthSpec(hs: seq<Date>, s: Stack)
    requires IsStack(hs, s) && Chronological(s.keys)
    ensures IsStack(hs, Health(hs, s))
    ensures forall x :: x in Health(hs, s).vals ==> Prev(x) !in Health(hs, s).vals
    ensures AllNames(Health(hs, s).vals) == AllNames(s.vals)
    ensures forall x :: x in s.vals ==>
      || (x in Health(hs, s).vals && Elems(s.vals[x]) <= Elems(Health(hs, s).vals[x]))
      || (&& x !in Health(hs, s).vals && NextWorkingDay(hs, x) in Health(hs, s).vals
          && Elems(s.vals[x]) <= Elems(Health(hs, s).vals[NextWorkingDay(hs, x)]))
  {
    HealthFromInv(hs, s);
    var r := Health(hs, s);
    assert s.keys[|s.keys|..] == [];
    forall x | x in s.vals
      ensures || (x in r.vals && Elems(s.vals[x]) <= Elems(r.vals[x]))
              || (&& x !in r.vals && NextWorkingDay(hs, x) in r.vals
                  && Elems(s.vals[x]) <= Elems(r.vals[NextWorkingDay(hs, x)]))
    {
      var j :| 0 <= j < |s.keys| && s.keys[j] == x;
    }
  }

  /** A name on day d is afterwards on d or on d's next working day. */
  lemma HealthKeepsName(hs: seq<Date>, s: Stack, d: Date, x: string)
    requires IsStack(hs, s) && Chronological(s.keys) && d in s.vals && x in s.vals[d]
    ensures var e := if d in Health(hs, s).vals then d else NextWorkingDay(hs, d);
      e in Health(hs, s).vals && x in Health(hs, s).vals[e] && Ord(d) <= Ord(e)
  {
    HealthSpec(hs, s);
    assert x in Elems(s.vals[d]);
  }

  /** A stack in which no cake day is the day after another is left as it
      is. */
  lemma HealthIdle(hs: seq<Date>, s: Stack)
    requires Ordered(s) && forall x :: x in s.vals ==> Prev(x) !in s.vals
    ensures Health(hs, s) == s
  {
    var inv := (j: nat, t: Stack) => t == s;
    forall j: nat, t: Stack | j < |s.keys| && inv(j, t) ensures inv(j + 1, HealthOne(hs, s, j, t)) {
      assert s.keys[j] in s.vals;
    }
    HealthFromKeeps(hs, s, 0, s, inv);
  }

  // ---------------------------------------------------------------------
  // The pass as written, with the skip flag.

  lemma {:induction false} HealthFromAsWrittenKeeps(hs: seq<Date>, snap: Stack, i: nat, w: Walk, inv: (nat, Walk) -> bool)
    requires Ordered(snap) && i <= |snap.keys| && inv(i, w)
    requires forall j: nat, v: Walk :: i <= j < |snap.keys| && inv(j, v) ==> inv(j + 1, HealthTurn(hs, snap, j, v))
    ensures inv(|snap.keys|, HealthFromAsWritten(hs, snap, i, w))
    decreases |snap.keys| - i
  {
    if i < |snap.keys| {
      HealthFromAsWrittenKeeps(hs, snap, i + 1, HealthTurn(hs, snap, i, w), inv);
    }
  }

  /** The invariant of the foreach as written, for a pass over the snapshot
      snap. */
  ghost predicate AsWrittenInv(hs: seq<Date>, snap: Stack, i: nat, w: Walk)
  {
    && IsStack(hs, w.stack)
    && Pending(snap, i, w.skip, w.stack)
    && SameNames(w.stack.vals, snap.vals)
    && Ordered(snap) && i <= |snap.keys|
    && HealthPlaced(hs, snap, i, w.stack)
  }

  lemma HealthTurnInv(hs: seq<Date>, snap: Stack, i: nat, w: Walk)
    requires HealthReady(hs, snap) && i < |snap.keys| && AsWrittenInv(hs, snap, i, w)
    ensures AsWrittenInv(hs, snap, i + 1, HealthTurn(hs, snap, i, w))
  {
    if !w.skip {
      var live := w.stack;
      assert WorkingKeys(hs, live) && HealthPending(snap, i, live);
      HealthOneShape(hs, snap, i, live);
      HealthOneNames(hs, snap, i, live);
      SameNamesTransitive(HealthOne(hs, snap, i, live).vals, live.vals, snap.vals);
      HealthOnePending(hs, snap, i, live);
      HealthOnePlaced(hs, snap, i, live);
    } else {
      assert PlacedAt(hs, snap, snap.keys[i], w.stack);
    }
  }

  lemma AsWrittenStart(hs: seq<Date>, s: Stack)
    requires IsStack(hs, s) && Chronological(s.keys)
    ensures AsWrittenInv(hs, s, 0, Walk(false, s))
  {
  }

  lemma HealthAsWrittenInv(hs: seq<Date>, s: Stack)
    requires IsStack(hs, s) && Chronological(s.keys)
    ensures AsWrittenInv(hs, s, |s.keys|, HealthFromAsWritten(hs, s, 0, Walk(false, s)))
  {
    StackIsReady(hs, s);
    AsWrittenStart(hs, s);
    var inv := (j: nat, v: Walk) => AsWrittenInv(hs, s, j, v);
    forall j: nat, v: Walk | j < |s.keys| && inv(j, v) ensures inv(j + 1, HealthTurn(hs, s, j, v)) {
      HealthTurnInv(hs, s, j, v);
    }
    HealthFromAsWrittenKeeps(hs, s, 0, Walk(false, s), inv);
  }

  /** healthCheckModify as written keeps the stack shaped, loses no name and
      brings in none, and leaves every day's names either on that day or, if
      the day was dropped, on its next working day; it does not keep cake
      days apart (see HealthSkipKeepsNeighbours). */
  lemma HealthAsWrittenSpec(hs: seq<Date>, s: Stack)
    requires IsStack(hs, s) && Chronological(s.keys)
    ensures IsStack(hs, HealthAsWritten(hs, s))
    ensures AllNames(HealthAsWritten(hs, s).vals) == AllNames(s.vals)
    ensures forall x :: x in s.vals ==>
      || (x in HealthAsWritten(hs, s).vals && Elems(s.vals[x]) <= Elems(HealthAsWritten(hs, s).vals[x]))
      || (&& x !in HealthAsWritten(hs, s).vals && NextWorkingDay(hs, x) in HealthAsWritten(hs, s).vals
          && Elems(s.vals[x]) <= Elems(HealthAsWritten(hs, s).vals[NextWorkingDay(hs, x)]))
  {
    HealthAsWrittenInv(hs, s);
    var r := HealthAsWritten(hs, s);
    forall x | x in s.vals
      ensures || (x in r.vals && Elems(s.vals[x]) <= Elems(r.vals[x]))
              || (&& x !in r.vals && NextWorkingDay(hs, x) in r.vals
                  && Elems(s.vals[x]) <= Elems(r.vals[NextWorkingDay(hs, x)]))
    {
      var j :| 0 <= j < |s.keys| && s.keys[j] == x;
    }
  }

  /** As written too, a name on day d is afterwards on d or on d's next
      working day. */
  lemma HealthAsWrittenKeepsName(hs: seq<Date>, s: Stack, d: Date, x: string)
    requires IsStack(hs, s) && Chronological(s.keys) && d in s.vals && x in s.vals[d]
    ensures var e := if d in HealthAsWritten(hs, s).vals then d else NextWorkingDay(hs, d);
      e in HealthAsWritten(hs, s).vals && x in HealthAsWritten(hs, s).vals[e] && Ord(d) <= Ord(e)
  {
    HealthAsWrittenSpec(hs, s);
    assert x in Elems(s.vals[d]);
  }

  /** One health-check move keeps names apart: the day's names join its
      next working day's and leave the day. */
  lemma HealthOneDisjoint(hs: seq<Date>, snap: Stack, i: nat, live: Stack)
    requires i < |snap.keys| && snap.keys[i] in snap.vals && ValidDate(snap.keys[i])
    requires Pending(snap, i, false, live) && Disjoint(live.vals)
    ensures Disjoint(HealthOne(hs, snap, i, live).vals)
  {
    var d := snap.keys[i];
    if Prev(d) in live.vals {
      var t := NextWorkingDay(hs, d);
      HealthOneEffect(hs, snap, i, live);
      MoveDisjoint(live.vals, d, t, MovedNames(live, t, snap.vals[d]));
    }
  }

  /** When no name is on two days of the stack, none is on two days after
      healthCheckModify as written either. */
  lemma HealthAsWrittenDisjoint(hs: seq<Date>, s: Stack)
    requires IsStack(hs, s) && Chronological(s.keys) && Disjoint(s.vals)
    ensures Disjoint(HealthAsWritten(hs, s).vals)
  {
    AsWrittenStart(hs, s);
    StackIsReady(hs, s);
    var inv := (j: nat, v: Walk) => DisjointInv(hs, s, j, v);
    forall j: nat, v: Walk | j < |s.keys| && inv(j, v) ensures inv(j + 1, HealthTurn(hs, s, j, v)) {
      HealthTurnDisjoint(hs, s, j, v);
    }
    HealthFromAsWrittenKeeps(hs, s, 0, Walk(false, s), inv);
  }

  /** The invariant of the pass as written, with names kept apart. */
  ghost predicate DisjointInv(hs: seq<Date>, snap: Stack, i: nat, w: Walk)
  {
    AsWrittenInv(hs, snap, i, w) && Disjoint(w.stack.vals)
  }

  lemma HealthTurnDisjoint(hs: seq<Date>, snap: Stack, i: nat, w: Walk)
    requires HealthReady(hs, snap) && i < |snap.keys| && DisjointInv(hs, snap, i, w)
    ensures DisjointInv(hs, snap, i + 1, HealthTurn(hs, snap, i, w))
  {
    HealthTurnInv(hs, snap, i, w);
    if !w.skip {
      HealthOneDisjoint(hs, snap, i, w.stack);
    }
  }

  /** As written too, a stack in which no cake day is the day after another
      is left as it is: the skip flag is never raised. */
  lemma HealthAsWrittenIdle(hs: seq<Date>, s: Stack)
    requires Ordered(s) && forall x :: x in s.vals ==> Prev(x) !in s.vals
    ensures HealthAsWritten(hs, s) == s
  {
    var inv := (j: nat, v: Walk) => v == Walk(false, s);
    forall j: nat, v: Walk | j < |s.keys| && inv(j, v) ensures inv(j + 1, HealthTurn(hs, s, j, v)) {
      assert s.keys[j] in s.vals;
    }
    HealthFromAsWrittenKeeps(hs, s, 0, Walk(false, s), inv);
  }

  // ---------------------------------------------------------------------
  // The skip flag at work: birthdays on three days of October 2020.

  const Oct6 := Date(2020, 10, 6)
  const Oct7 := Date(2020, 10, 7)
  const Oct8 := Date(2020, 10, 8)
  const Oct9 := Date(2020, 10, 9)

  /** Cake days on Tuesday 6, Wednesday 7 and Friday 9 October 2020, with
      the names a, b and c. */
  function OctoberStack(a: seq<string>, b: seq<string>, c: seq<string>): (s: Stack)
    ensures Ordered(s)
    ensures s.vals.Keys == {Oct6, Oct7, Oct9}
  {
    var s := PArray([Oct6, Oct7, Oct9], map[Oct6 := a, Oct7 := b, Oct9 := c]);
    assert Distinct(s.keys) by {
      assert Ord(s.keys[0]) < Ord(s.keys[1]) < Ord(s.keys[2]);
    }
    s
  }

  /** Thursday 8 October 2020 is the working day after 7 October. */
  lemma OctoberNextWorkingDay()
    ensures NextWorkingDay(Holidays(2020), Oct7) == Oct8
  {
    assert DaysBeforeYear(2020) == 737424;
    assert DayNumber(Oct8) == 737705 && DayOfWeek(Oct8) == 3;
    assert IsWorkingDay(Holidays(2020), Oct8);
  }

  /** The turn for 7 October moves its names onto the working day after
      it, Thursday 8 in 2020. */
  lemma OctoberSeventh(hs: seq<Date>, snap: Stack, live: Stack)
    requires NextWorkingDay(hs, Oct7) == Oct8
    requires Ordered(snap) && |snap.keys| == 3 && snap.keys[1] == Oct7
    requires live.vals.Keys == {Oct6, Oct7, Oct9}
    ensures HealthOne(hs, snap, 1, live).vals.Keys == {Oct6, Oct8, Oct9}
  {
    assert Prev(Oct7) == Oct6;
    HealthOneEffect(hs, snap, 1, live);
  }

  /** The pass as written over any stack with cake days on 6, 7 and
      9 October 2020: the first two turns leave the flag up ... */
  lemma OctoberAsWrittenHead(hs: seq<Date>, snap: Stack)
    requires NextWorkingDay(hs, Oct7) == Oct8
    requires Ordered(snap) && snap.keys == [Oct6, Oct7, Oct9]
    ensures var w := HealthTurn(hs, snap, 1, Walk(false, snap));
      && HealthFromAsWritten(hs, snap, 0, Walk(false, snap)) == HealthFromAsWritten(hs, snap, 2, w)
      && w.skip && w.stack.vals.Keys == {Oct6, Oct8, Oct9}
  {
    OctoberAsWrittenStart(hs, snap);
    OctoberSeventh(hs, snap, snap);
  }

  /** The turn for 6 October changes nothing; the one for 7 October raises
      the flag, whatever the holidays. */
  lemma OctoberAsWrittenStart(hs: seq<Date>, snap: Stack)
    requires Ordered(snap) && snap.keys == [Oct6, Oct7, Oct9]
    ensures var w := HealthTurn(hs, snap, 1, Walk(false, snap));
      && HealthFromAsWritten(hs, snap, 0, Walk(false, snap)) == HealthFromAsWritten(hs, snap, 2, w)
      && w.skip && w.stack == HealthOne(hs, snap, 1, snap)
  {
    var w0 := Walk(false, snap);
    assert Prev(Oct6) !in snap.vals;
    assert HealthTurn(hs, snap, 0, w0) == w0;
    assert Prev(Oct7) == Oct6;
  }

  /** ... so the turn for 9 October only lowers it. */
  lemma OctoberAsWrittenTail(hs: seq<Date>, snap: Stack, w: Walk)
    requires Ordered(snap) && |snap.keys| == 3 && w.skip
    ensures HealthFromAsWritten(hs, snap, 2, w).stack == w.stack
  {
    var w3 := HealthTurn(hs, snap, 2, w);
    assert HealthFromAsWritten(hs, snap, 3, w3) == w3;
  }

  /** healthCheckModify as written moves 7 October onto Thursday 8, then
      skips Friday 9, so two cake days in a row remain, whatever the names. */
  lemma HealthSkipKeepsNeighbours(a: seq<string>, b: seq<string>, c: seq<string>)
    ensures var r := HealthAsWritten(Holidays(2020), OctoberStack(a, b, c));
      Oct8 in r.vals && Oct9 in r.vals && Prev(Oct9) == Oct8
  {
    var hs := Holidays(2020);
    var s := OctoberStack(a, b, c);
    OctoberNextWorkingDay();
    OctoberAsWrittenHead(hs, s);
    OctoberAsWrittenTail(hs, s, HealthTurn(hs, s, 1, Walk(false, s)));
    assert Prev(Oct9) == Oct8;
  }
}
