/** The order the wheel keeps: every spoke's list is sorted by ticks
    remaining, `(TickCtrMatch - OSTickCtr) mod 2^N`, and no linked entry is
    due at the current tick. Insertion and removal keep both; a tick keeps
    both once the sweep has taken out what fell due, provided every linked
    task is in one of the four timed states. */
module WheelOrder {
  import opened Wrappers
  import opened TickMath
  import opened TickEntry
  import opened SpokeList

  ghost predicate SortedWheel(lists: seq<seq<nat>>, tcbs: seq<Tcb>, now: nat, m: nat)
    requires 0 < m
  {
    forall s :: 0 <= s < |lists| ==> NonDecreasing(Rems(lists[s], tcbs, now, m))
  }

  ghost predicate NoneDueWheel(lists: seq<seq<nat>>, tcbs: seq<Tcb>, now: nat, m: nat)
    requires 0 < m
  {
    forall s :: 0 <= s < |lists| ==> 0 !in Rems(lists[s], tcbs, now, m)
  }

  /** Every linked task waits on the tick (delay or timed pend). */
  ghost predicate AllTimed(tcbs: seq<Tcb>) {
    forall u :: 0 <= u < |tcbs| && tcbs[u].tickSpoke.Some? ==> IsTimed(tcbs[u].taskState)
  }

  /** Remaining ticks depend on the matches only. */
  lemma RemsFrame(l: seq<nat>, a: seq<Tcb>, b: seq<Tcb>, now: nat, m: nat)
    requires 0 < m && |a| == |b|
    requires forall u :: u in l && u < |a| ==> a[u].tickCtrMatch == b[u].tickCtrMatch
    ensures Rems(l, a, now, m) == Rems(l, b, now, m)
  {
    assert forall i :: 0 <= i < |l| ==> l[i] in l;
  }

  /** Dropping position `i` drops that entry's remaining. */
  lemma RemsDrop(l: seq<nat>, i: nat, tcbs: seq<Tcb>, now: nat, m: nat)
    requires 0 < m && i < |l|
    ensures Rems(l[..i] + l[i + 1..], tcbs, now, m) ==
            Rems(l, tcbs, now, m)[..i] + Rems(l, tcbs, now, m)[i + 1..]
  {
  }

  /** Inserting at position `p` inserts that entry's remaining. */
  lemma RemsInsert(l: seq<nat>, p: nat, t: nat, tcbs: seq<Tcb>, now: nat, m: nat)
    requires 0 < m && p <= |l|
    ensures Rems(l[..p] + [t] + l[p..], tcbs, now, m) ==
            Rems(l, tcbs, now, m)[..p] + [Rem(tcbs, t, now, m)] + Rems(l, tcbs, now, m)[p..]
  {
  }

  lemma NonDecreasingDrop(a: seq<nat>, i: nat)
    requires NonDecreasing(a) && i < |a|
    ensures NonDecreasing(a[..i] + a[i + 1..])
  {
    var b := a[..i] + a[i + 1..];
    assert forall j :: 0 <= j < |b| ==> b[j] == if j < i then a[j] else a[j + 1];
  }

  /** Removing one linked task from its spoke keeps the order and keeps
      every remaining entry not due. */
  lemma {:induction false} OrderAfterUnlink(
    spokes: seq<Spoke>, a: seq<Tcb>, lists: seq<seq<nat>>, s: nat, i: nat, b: seq<Tcb>, now: nat, m: nat)
    requires WheelWF(spokes, a, lists) && 0 < m
    requires s < |lists| && i < |lists[s]|
    requires |b| == |a| && forall u :: 0 <= u < |a| && u != lists[s][i] ==> b[u].tickCtrMatch == a[u].tickCtrMatch
    ensures SortedWheel(lists, a, now, m) ==>
            SortedWheel(lists[s := lists[s][..i] + lists[s][i + 1..]], b, now, m)
    ensures NoneDueWheel(lists, a, now, m) ==>
            NoneDueWheel(lists[s := lists[s][..i] + lists[s][i + 1..]], b, now, m)
  {
    var t := lists[s][i];
    var lists2 := lists[s := lists[s][..i] + lists[s][i + 1..]];
    forall s' | 0 <= s' < |lists|
      ensures Rems(lists2[s'], b, now, m) ==
              if s' == s then Rems(lists[s], a, now, m)[..i] + Rems(lists[s], a, now, m)[i + 1..]
              else Rems(lists[s'], a, now, m)
    {
      assert ListWF(a, lists[s'], s', |lists|);
      assert LinkedAt(a, lists[s], s, |lists|, i);
      if s' == s {
        assert t !in lists2[s] by {
          assert forall j :: 0 <= j < |lists2[s]| ==>
            lists2[s][j] == if j < i then lists[s][j] else lists[s][j + 1];
        }
        RemsFrame(lists2[s], a, b, now, m);
        RemsDrop(lists[s], i, a, now, m);
      } else {
        assert t !in lists[s'] by {
          if t in lists[s'] {
            MemberIffSpoke(spokes, a, lists, t, s');
          }
        }
        RemsFrame(lists[s'], a, b, now, m);
      }
    }
    if SortedWheel(lists, a, now, m) {
      NonDecreasingDrop(Rems(lists[s], a, now, m), i);
    }
  }

  /** Changing the match of a task that is not linked changes no spoke's
      order. */
  lemma {:induction false} OrderIgnoresUnlinked(
    spokes: seq<Spoke>, a: seq<Tcb>, lists: seq<seq<nat>>, t: nat, b: seq<Tcb>, now: nat, m: nat)
    requires WheelWF(spokes, a, lists) && 0 < m
    requires t < |a| && a[t].tickSpoke == None
    requires |b| == |a| && forall u :: 0 <= u < |a| && u != t ==> b[u].tickCtrMatch == a[u].tickCtrMatch
    ensures SortedWheel(lists, a, now, m) ==> SortedWheel(lists, b, now, m)
    ensures NoneDueWheel(lists, a, now, m) ==> NoneDueWheel(lists, b, now, m)
  {
    forall s | 0 <= s < |lists|
      ensures Rems(lists[s], b, now, m) == Rems(lists[s], a, now, m)
    {
      assert t !in lists[s] by {
        if t in lists[s] {
          MemberIffSpoke(spokes, a, lists, t, s);
        }
      }
      RemsFrame(lists[s], a, b, now, m);
    }
  }

  /** Splicing a new task in where the insertion walk stops keeps the order,
      and keeps nothing due when the new task is not due. */
  lemma {:induction false} OrderAfterSplice(
    spokes: seq<Spoke>, a: seq<Tcb>, lists: seq<seq<nat>>, s: nat, t: nat, b: seq<Tcb>, now: nat, m: nat)
    requires WheelWF(spokes, a, lists) && 0 < m
    requires s < |lists| && t < |a| && a[t].tickSpoke == None
    requires |b| == |a| && forall u :: 0 <= u < |a| && u != t ==> b[u].tickCtrMatch == a[u].tickCtrMatch
    ensures var p := FirstAtLeast(Rems(lists[s], a, now, m), Rem(b, t, now, m));
            SortedWheel(lists, a, now, m) ==>
            SortedWheel(lists[s := lists[s][..p] + [t] + lists[s][p..]], b, now, m)
    ensures var p := FirstAtLeast(Rems(lists[s], a, now, m), Rem(b, t, now, m));
            NoneDueWheel(lists, a, now, m) && Rem(b, t, now, m) != 0 ==>
            NoneDueWheel(lists[s := lists[s][..p] + [t] + lists[s][p..]], b, now, m)
  {
    var r := Rem(b, t, now, m);
    var A := Rems(lists[s], a, now, m);
    var p := FirstAtLeast(A, r);
    var lists2 := lists[s := lists[s][..p] + [t] + lists[s][p..]];
    forall s' | 0 <= s' < |lists|
      ensures Rems(lists2[s'], b, now, m) == if s' == s then A[..p] + [r] + A[p..] else Rems(lists[s'], a, now, m)
    {
      assert t !in lists[s'] by {
        if t in lists[s'] {
          MemberIffSpoke(spokes, a, lists, t, s');
        }
      }
      RemsFrame(lists[s'], a, b, now, m);
      if s' == s {
        RemsInsert(lists[s], p, t, b, now, m);
      }
    }
    if SortedWheel(lists, a, now, m) {
      SpliceSorted(A, r);
    }
  }

  /** A linked task whose match is the new tick sits in the swept spoke:
      the wheel hashes matches to spokes and sweeps the spoke of the tick. */
  lemma DueOnlyInSweptSpoke(spokes: seq<Spoke>, tcbs: seq<Tcb>, lists: seq<seq<nat>>, u: nat, now: nat)
    requires WheelWF(spokes, tcbs, lists) && 0 < |lists|
    requires u < |tcbs| && tcbs[u].tickSpoke.Some? && tcbs[u].tickCtrMatch == now
    ensures tcbs[u].tickSpoke.value == now % |lists| && u in lists[now % |lists|]
  {
    var s := tcbs[u].tickSpoke.value;
    MemberIffSpoke(spokes, tcbs, lists, u, s);
    var i := IndexOf(lists[s], u);
    assert LinkedAt(tcbs, lists[s], s, |lists|, i);
  }

  /** How the sweep of spoke `l` leaves the control blocks: the `n` visited
      entries as `Visited` says, everything else as it was (links aside). */
  ghost predicate SweptFrom(a: seq<Tcb>, b: seq<Tcb>, l: seq<nat>, n: nat, now: nat, m: nat, ts: nat)
    requires 0 < m && n <= |l|
  {
    |b| == |a| &&
    forall u :: 0 <= u < |b| ==>
      SameButLinks(b[u], if u in l[..n] then Visited(a[u], now, m, ts) else a[u])
  }

  /** The tasks off the wheel after the sweep of spoke `l`, links included:
      a visited entry that left is exactly as `Visited` made it, and every
      other task off the wheel is exactly as it was. */
  ghost predicate SweptOffWheel(a: seq<Tcb>, b: seq<Tcb>, l: seq<nat>, n: nat, now: nat, m: nat, ts: nat)
    requires 0 < m && n <= |l|
  {
    |b| == |a| &&
    forall u :: 0 <= u < |b| && b[u].tickSpoke.None? ==>
      b[u] == (if u in l[..n] then Visited(a[u], now, m, ts) else a[u])
  }

  /** A task the sweep has not reached is unchanged but for its links. */
  lemma SweptLeavesUnvisited(a: seq<Tcb>, b: seq<Tcb>, l: seq<nat>, n: nat, now: nat, m: nat, ts: nat, u: nat)
    requires 0 < m && n <= |l| && SweptFrom(a, b, l, n, now, m, ts)
    requires u < |a|
    ensures u !in l[..n] ==> SameButLinks(b[u], a[u])
  {
  }

  /** A task the sweep did not expire keeps its state, spoke and match. */
  lemma SweptKeepsUndue(a: seq<Tcb>, b: seq<Tcb>, l: seq<nat>, n: nat, now: nat, m: nat, ts: nat, u: nat)
    requires 0 < m && n <= |l| && SweptFrom(a, b, l, n, now, m, ts)
    requires u < |a| && !DueAt(a, u, now)
    ensures b[u].tickCtrMatch == a[u].tickCtrMatch && b[u].tickSpoke == a[u].tickSpoke
    ensures b[u].taskState == a[u].taskState
  {
    assert SameButLinks(b[u], if u in l[..n] then Visited(a[u], now, m, ts) else a[u]);
  }

  /** A task the sweep expired has left the wheel. */
  lemma SweptDetachesDue(a: seq<Tcb>, b: seq<Tcb>, l: seq<nat>, n: nat, now: nat, m: nat, ts: nat, u: nat)
    requires 0 < m && n <= |l| && SweptFrom(a, b, l, n, now, m, ts)
    requires u < |a| && DueAt(a, u, now) && u in l[..n]
    ensures b[u].tickSpoke == None
  {
    assert SameButLinks(b[u], Expired(a[u], ts));
  }

  /** In a sorted spoke of timed waits, nothing from the stopping entry on
      is due: the stopping entry is not, and the rest are no closer. */
  lemma {:induction false} StopSuffixNotDue(a: seq<Tcb>, l: seq<nat>, now0: nat, m: nat)
    requires 0 < m && now0 < m
    requires forall i :: 0 <= i < |l| ==>
      l[i] < |a| && IsTimed(a[l[i]].taskState) && a[l[i]].tickCtrMatch < m
    requires NonDecreasing(Rems(l, a, now0, m)) && 0 !in Rems(l, a, now0, m)
    ensures var now := Wrap(now0 + 1, m); var j := StopIndex(l, a, now);
      var A := Rems(l, a, now, m);
      NonDecreasing(A[j..]) && 0 !in A[j..] && Rems(l[j..], a, now, m) == A[j..] &&
      (forall i :: 0 <= i < j ==> DueAt(a, l[i], now)) &&
      (forall i :: j <= i < |l| ==> !DueAt(a, l[i], now))
  {
    var now := Wrap(now0 + 1, m);
    var j := StopIndex(l, a, now);
    RemsAfterTick(l, a, now0, m);
    var A := Rems(l, a, now, m);
    forall i | j <= i < |l|
      ensures A[i] != 0 && !DueAt(a, l[i], now)
    {
      DistZero(a[l[j]].tickCtrMatch, now, m);
      assert A[j] <= A[i];
      DistZero(a[l[i]].tickCtrMatch, now, m);
    }
    assert Rems(l[j..], a, now, m) == A[j..];
  }

  /** The swept spoke after a tick: every entry before the stopping one was
      due, and from the stopping entry on the list is sorted and not due. */
  lemma {:induction false} SweptSpokeOrder(
    a: seq<Tcb>, b: seq<Tcb>, l: seq<nat>, now0: nat, m: nat, ts: nat)
    requires 0 < m && now0 < m
    requires forall i :: 0 <= i < |l| ==>
      l[i] < |a| && IsTimed(a[l[i]].taskState) && a[l[i]].tickCtrMatch < m
    requires NonDecreasing(Rems(l, a, now0, m)) && 0 !in Rems(l, a, now0, m)
    requires SweptFrom(a, b, l, WalkLength(l, a, Wrap(now0 + 1, m)), Wrap(now0 + 1, m), m, ts)
    ensures var j := StopIndex(l, a, Wrap(now0 + 1, m));
      NonDecreasing(Rems(l[j..], b, Wrap(now0 + 1, m), m)) &&
      0 !in Rems(l[j..], b, Wrap(now0 + 1, m), m) &&
      (forall i :: 0 <= i < j ==> DueAt(a, l[i], Wrap(now0 + 1, m))) &&
      (forall i :: j <= i < |l| ==> !DueAt(a, l[i], Wrap(now0 + 1, m)))
  {
    var now := Wrap(now0 + 1, m);
    var n := WalkLength(l, a, now);
    var j := StopIndex(l, a, now);
    StopSuffixNotDue(a, l, now0, m);
    forall u | u in l[j..] && u < |a|
      ensures a[u].tickCtrMatch == b[u].tickCtrMatch
    {
      var i :| j <= i < |l| && l[i] == u;
      SweptKeepsUndue(a, b, l, n, now, m, ts, u);
    }
    RemsFrame(l[j..], a, b, now, m);
  }


  /** A spoke other than the swept one after a tick: nothing in it was
      visited, and nothing in it is due (its matches hash elsewhere). */
  lemma {:induction false} OtherSpokeOrder(
    spokes: seq<Spoke>, a: seq<Tcb>, lists: seq<seq<nat>>, b: seq<Tcb>,
    s: nat, now0: nat, m: nat, ts: nat)
    requires WheelWF(spokes, a, lists) && 0 < m && now0 < m && 0 < |lists|
    requires forall u :: 0 <= u < |a| ==> a[u].tickCtrMatch < m
    requires s < |lists| && s != Wrap(now0 + 1, m) % |lists|
    requires 0 !in Rems(lists[s], a, now0, m)
    requires var now := Wrap(now0 + 1, m); var l := lists[now % |lists|];
      SweptFrom(a, b, l, WalkLength(l, a, now), now, m, ts)
    ensures NonDecreasing(Rems(lists[s], a, now0, m)) ==>
      NonDecreasing(Rems(lists[s], b, Wrap(now0 + 1, m), m))
    ensures 0 !in Rems(lists[s], b, Wrap(now0 + 1, m), m)
  {
    var now := Wrap(now0 + 1, m);
    var w := |lists|;
    var l := lists[now % w];
    var n := WalkLength(l, a, now);
    assert ListWF(a, lists[s], s, w);
    forall u | u in lists[s] && u < |a| ensures b[u].tickCtrMatch == a[u].tickCtrMatch {
      var i :| 0 <= i < |lists[s]| && lists[s][i] == u;
      assert LinkedAt(a, lists[s], s, w, i);
      SweptKeepsUndue(a, b, l, n, now, m, ts, u);
    }
    RemsFrame(lists[s], a, b, now, m);
    assert forall i :: 0 <= i < |lists[s]| ==> lists[s][i] < |a| && a[lists[s][i]].tickCtrMatch < m by {
      forall i | 0 <= i < |lists[s]| ensures lists[s][i] < |a| {
        assert LinkedAt(a, lists[s], s, w, i);
      }
    }
    RemsAfterTick(lists[s], a, now0, m);
    forall i | 0 <= i < |lists[s]| ensures Rems(lists[s], a, now, m)[i] != 0 {
      assert LinkedAt(a, lists[s], s, w, i);
      DistZero(a[lists[s][i]].tickCtrMatch, now, m);
    }
  }

  /** After the sweep every task still linked waits on the tick. */
  lemma SweepKeepsTimed(a: seq<Tcb>, b: seq<Tcb>, l: seq<nat>, n: nat, now: nat, m: nat, ts: nat)
    requires 0 < m && n <= |l| && SweptFrom(a, b, l, n, now, m, ts) && AllTimed(a)
    ensures AllTimed(b)
  {
    forall u | 0 <= u < |b| && b[u].tickSpoke.Some?
      ensures IsTimed(b[u].taskState)
    {
      if DueAt(a, u, now) {
        if u in l[..n] {
          SweptDetachesDue(a, b, l, n, now, m, ts, u);
        } else {
          assert SameButLinks(b[u], a[u]);
        }
      } else {
        SweptKeepsUndue(a, b, l, n, now, m, ts, u);
      }
    }
  }

  /** Every task linked with a match on the new tick lies in the swept spoke
      before the stopping entry, so the sweep expires it. */
  lemma {:induction false} SweepTakesDue(
    spokes0: seq<Spoke>, a: seq<Tcb>, lists0: seq<seq<nat>>, b: seq<Tcb>, now: nat, m: nat, ts: nat)
    requires WheelWF(spokes0, a, lists0) && 0 < m && now < m && 0 < |lists0| && AllTimed(a)
    requires var l := lists0[now % |lists0|]; var j := StopIndex(l, a, now);
      SweptFrom(a, b, l, WalkLength(l, a, now), now, m, ts) &&
      forall i :: j <= i < |l| ==> !DueAt(a, l[i], now)
    ensures forall u :: 0 <= u < |a| && a[u].tickSpoke.Some? && a[u].tickCtrMatch == now ==>
      b[u].tickSpoke == None
  {
    var l := lists0[now % |lists0|];
    var n := WalkLength(l, a, now);
    var j := StopIndex(l, a, now);
    forall u | 0 <= u < |a| && a[u].tickSpoke.Some? && a[u].tickCtrMatch == now
      ensures b[u].tickSpoke == None
    {
      DueOnlyInSweptSpoke(spokes0, a, lists0, u, now);
      var i := IndexOf(l, u);
      assert DueAt(a, l[i], now);
      assert u in l[..n];
      SweptDetachesDue(a, b, l, n, now, m, ts, u);
    }
  }

  /** The entries of a spoke are tasks linked into it; with every linked
      task timed, they are all timed waits. */
  lemma LinkedMembersTimed(spokes: seq<Spoke>, a: seq<Tcb>, lists: seq<seq<nat>>, s: nat)
    requires WheelWF(spokes, a, lists) && s < |lists| && AllTimed(a)
    ensures forall i :: 0 <= i < |lists[s]| ==>
      lists[s][i] < |a| && a[lists[s][i]].tickSpoke == Some(s) && IsTimed(a[lists[s][i]].taskState)
  {
    assert ListWF(a, lists[s], s, |lists|);
    forall i | 0 <= i < |lists[s]| ensures lists[s][i] < |a| && a[lists[s][i]].tickSpoke == Some(s) {
      assert LinkedAt(a, lists[s], s, |lists|, i);
    }
  }

  /** What one tick does to the order, given what the sweep did to the
      swept spoke `sp`: the spoke keeps its list from the stopping entry on,
      the other spokes are unchanged, and every linked entry is one tick
      closer. Then the wheel is still sorted, nothing linked is due, every
      linked task still waits on the tick, and every task that was due on
      the new tick has left the wheel. */
  lemma {:induction false} OrderAfterSweep(
    spokes0: seq<Spoke>, a: seq<Tcb>, lists0: seq<seq<nat>>, b: seq<Tcb>, lists1: seq<seq<nat>>,
    now0: nat, m: nat, ts: nat)
    requires WheelWF(spokes0, a, lists0)
    requires 0 < m && now0 < m && 0 < |lists0|
    requires forall u :: 0 <= u < |a| ==> a[u].tickCtrMatch < m
    requires AllTimed(a) && SortedWheel(lists0, a, now0, m) && NoneDueWheel(lists0, a, now0, m)
    requires var now := Wrap(now0 + 1, m); var l := lists0[now % |lists0|]; var n := WalkLength(l, a, now);
      lists1 == lists0[now % |lists0| := Survivors(l[..n], a, now) + l[n..]] &&
      SweptFrom(a, b, l, n, now, m, ts)
    ensures AllTimed(b)
    ensures SortedWheel(lists1, b, Wrap(now0 + 1, m), m)
    ensures NoneDueWheel(lists1, b, Wrap(now0 + 1, m), m)
    ensures forall u :: 0 <= u < |a| && a[u].tickSpoke.Some? && a[u].tickCtrMatch == Wrap(now0 + 1, m) ==>
      b[u].tickSpoke == None
  {
    var now := Wrap(now0 + 1, m);
    var w := |lists0|;
    var sp := now % w;
    var l := lists0[sp];
    var n := WalkLength(l, a, now);
    var j := StopIndex(l, a, now);
    LinkedMembersTimed(spokes0, a, lists0, sp);
    SweepLeavesSuffix(l, a, now);
    assert lists1[sp] == l[j..];
    SweptSpokeOrder(a, b, l, now0, m, ts);
    forall s | 0 <= s < w
      ensures NonDecreasing(Rems(lists1[s], b, now, m)) && 0 !in Rems(lists1[s], b, now, m)
    {
      if s != sp {
        OtherSpokeOrder(spokes0, a, lists0, b, s, now0, m, ts);
      }
    }
    SweepKeepsTimed(a, b, l, n, now, m, ts);
    SweepTakesDue(spokes0, a, lists0, b, now, m, ts);
  }
}
