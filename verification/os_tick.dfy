/** The kernel's tick list: the hashed timing wheel `OSCfg_TickWheel[]`, the
    tick counter `OSTickCtr`, and the operations of the tick task that
    arm, disarm and expire timed waits.

    The control blocks live in an arena (`tcbs`, indexed by task id); the
    spokes' intrusive lists are mirrored by the ghost sequences `lists`, and
    the calls made into the rest of the kernel are recorded in the ghost
    trace `events`. */
module OsTick {
  import opened Wrappers
  import opened TickMath
  import opened TickEntry
  import opened SpokeList
  import opened WheelOrder

  /** The `OS_ERR` codes the tick code reports; `CreateErr` stands for any
      other code `OSTaskCreate` may hand back. */
  datatype OsErr =
    | NoErr
    | TimeZeroDly
    | TickStkInvalid
    | TickStkSizeInvalid
    | TickPrioInvalid
    | CreateErr(code: nat)

  function Max(a: nat, b: nat): nat {
    if a < b then b else a
  }

  /** Entries of a spoke list of length `n` that the splice walk visits when
      it stops at position `p`: the entries before it and, if there is one,
      the entry it stops at. */
  function InsertWalkLength(p: nat, n: nat): nat {
    if p < n then p + 1 else n
  }

  /** No control block is linked into the wheel and every tick field fits
      in an `OS_TICK`. */
  ghost predicate Unattached(tcbs: seq<Tcb>, m: nat) {
    forall u :: 0 <= u < |tcbs| ==>
      tcbs[u].tickSpoke.None? && tcbs[u].tickCtrMatch < m && tcbs[u].tickCtrPrev < m
  }

  /** What `OS_TickListRemove(t)` does to the wheel, from state 0 to state 1:
      nothing if `t` is not linked; otherwise `t` leaves its spoke's list,
      the spoke's head and count follow, and every other control block keeps
      all fields but its links, which change only for `t`'s two neighbours.
      The state of `t` itself is stated by the callers. */
  ghost predicate RemovedFrom(
    sp0: seq<Spoke>, tc0: seq<Tcb>, ls0: seq<seq<nat>>,
    sp1: seq<Spoke>, tc1: seq<Tcb>, ls1: seq<seq<nat>>, t: nat)
    requires t < |tc0|
  {
    |tc1| == |tc0| && |sp1| == |sp0| &&
    match tc0[t].tickSpoke
    case None =>
      sp1 == sp0 && ls1 == ls0 && forall u :: 0 <= u < |tc0| && u != t ==> tc1[u] == tc0[u]
    case Some(s) =>
      s < |ls0| && s < |sp0| && t in ls0[s] &&
      var i := IndexOf(ls0[s], t);
      ls1 == ls0[s := ls0[s][..i] + ls0[s][i + 1..]] &&
      sp1[s].nbrEntries + 1 == sp0[s].nbrEntries &&
      sp1[s].nbrEntriesMax == sp0[s].nbrEntriesMax &&
      sp1[s].first == (if i == 0 then tc0[t].tickNext else sp0[s].first) &&
      (forall s' :: 0 <= s' < |sp0| && s' != s ==> sp1[s'] == sp0[s']) &&
      (forall u :: 0 <= u < |tc0| && u != t ==> SameButLinks(tc1[u], tc0[u])) &&
      (forall u :: (0 <= u < |tc0| && u != t &&
                    Some(u) != tc0[t].tickPrev && Some(u) != tc0[t].tickNext)
               ==> tc1[u] == tc0[u])
  }

  /** Taking a task off the wheel keeps every spoke in order, keeps nothing
      due that was not, and leaves only timed waits linked. */
  lemma {:induction false} RemovalKeepsOrder(
    sp0: seq<Spoke>, tc0: seq<Tcb>, ls0: seq<seq<nat>>,
    sp1: seq<Spoke>, tc1: seq<Tcb>, ls1: seq<seq<nat>>, t: nat, now: nat, m: nat)
    requires WheelWF(sp0, tc0, ls0) && 0 < m && t < |tc0|
    requires RemovedFrom(sp0, tc0, ls0, sp1, tc1, ls1, t) && tc1[t].tickSpoke == None
    ensures SortedWheel(ls0, tc0, now, m) ==> SortedWheel(ls1, tc1, now, m)
    ensures NoneDueWheel(ls0, tc0, now, m) ==> NoneDueWheel(ls1, tc1, now, m)
    ensures AllTimed(tc0) ==> AllTimed(tc1)
  {
    RemovedKeepsOthers(sp0, tc0, ls0, sp1, tc1, ls1, t);
    match tc0[t].tickSpoke
    case None =>
      OrderIgnoresUnlinked(sp0, tc0, ls0, t, tc1, now, m);
    case Some(s) =>
      var i := IndexOf(ls0[s], t);
      OrderAfterUnlink(sp0, tc0, ls0, s, i, tc1, now, m);
  }

  /** Removal changes no other task's state, spoke or match. */
  lemma RemovedKeepsOthers(
    sp0: seq<Spoke>, tc0: seq<Tcb>, ls0: seq<seq<nat>>,
    sp1: seq<Spoke>, tc1: seq<Tcb>, ls1: seq<seq<nat>>, t: nat)
    requires t < |tc0| && RemovedFrom(sp0, tc0, ls0, sp1, tc1, ls1, t)
    ensures forall u :: 0 <= u < |tc0| && u != t ==>
      tc1[u].tickCtrMatch == tc0[u].tickCtrMatch && tc1[u].tickSpoke == tc0[u].tickSpoke &&
      tc1[u].taskState == tc0[u].taskState
  {
    forall u | 0 <= u < |tc0| && u != t
      ensures tc1[u].tickCtrMatch == tc0[u].tickCtrMatch && tc1[u].tickSpoke == tc0[u].tickSpoke &&
              tc1[u].taskState == tc0[u].taskState
    {
      if tc0[t].tickSpoke.Some? {
        assert SameButLinks(tc1[u], tc0[u]);
      }
    }
  }


  /** What a successful `OS_TickListInsert(t)` computing timing `tm` does,
      from state 0 to state 1: `t` enters spoke `match % size` in front of the
      first entry whose remaining is not below its own (after the tail if
      none), the spoke's head, count and peak follow, `t` takes its new
      timing, the entries the walk visited have their remaining refreshed,
      and nothing else changes but the links of `t`'s two new neighbours. */
  ghost predicate InsertedAt(
    sp0: seq<Spoke>, tc0: seq<Tcb>, ls0: seq<seq<nat>>,
    sp1: seq<Spoke>, tc1: seq<Tcb>, ls1: seq<seq<nat>>, t: nat, tm: Timing, now: nat, m: nat)
    requires t < |tc0| && 0 < m
  {
    |ls0| == |sp0| && 0 < |sp0| && |sp1| == |sp0| && |tc1| == |tc0| &&
    var s := tm.tickCtrMatch % |sp0|;
    var l := ls0[s];
    var p := FirstAtLeast(Rems(l, tc0, now, m), tm.tickRemain);
    ls1 == ls0[s := l[..p] + [t] + l[p..]] &&
    sp1[s].first == (if p == 0 then Some(t) else sp0[s].first) &&
    sp1[s].nbrEntries == sp0[s].nbrEntries + 1 &&
    sp1[s].nbrEntriesMax == Max(sp0[s].nbrEntriesMax, sp0[s].nbrEntries + 1) &&
    (forall s' :: 0 <= s' < |sp0| && s' != s ==> sp1[s'] == sp0[s']) &&
    SameButLinks(tc1[t], tc0[t].(tickCtrMatch := tm.tickCtrMatch, tickRemain := tm.tickRemain,
                                 tickCtrPrev := tm.tickCtrPrev, tickSpoke := Some(s))) &&
    (forall u :: 0 <= u < |tc0| && u != t ==>
       SameButLinks(tc1[u], if u in l[..InsertWalkLength(p, |l|)] then Refreshed(tc0[u], now, m) else tc0[u])) &&
    (forall u :: 0 <= u < |tc0| && u != t && u !in l ==> tc1[u] == tc0[u])
  }

  /** The control blocks after the splice walk of `OS_TickListInsert` put
      `t` at position `p` of list `l`: `t` is linked between `l[p - 1]` and
      `l[p]`, the visited entries have their remaining refreshed, and the
      two neighbours point at `t`. */
  ghost predicate SplicedAt(b: seq<Tcb>, base: seq<Tcb>, l: seq<nat>, p: nat, t: nat, now: nat, m: nat)
    requires 0 < m && p <= |l| && t < |base|
    requires forall j :: 0 <= j < |l| ==> l[j] < |base|
  {
    |b| == |base| &&
    b[t].(tickSpoke := base[t].tickSpoke) ==
      base[t].(tickPrev := (if p == 0 then None else Some(l[p - 1])),
               tickNext := (if p == |l| then None else Some(l[p]))) &&
    (p > 0 ==> b[l[p - 1]] == Refreshed(base[l[p - 1]], now, m).(tickNext := Some(t))) &&
    (p < |l| ==> b[l[p]] == Refreshed(base[l[p]], now, m).(tickPrev := Some(t))) &&
    forall u :: (0 <= u < |b| && u != t && (p == 0 || u != l[p - 1]) && (p == |l| || u != l[p]))
             ==> b[u] == (if u in l[..InsertWalkLength(p, |l|)] then Refreshed(base[u], now, m) else base[u])
  }

  /** The first `k` entries of `l` have been visited by the splice walk:
      their remaining is refreshed, nothing else has changed yet. */
  ghost predicate Walked(b: seq<Tcb>, base: seq<Tcb>, l: seq<nat>, k: nat, now: nat, m: nat)
    requires 0 < m && k <= |l|
  {
    |b| == |base| &&
    forall u :: 0 <= u < |b| ==> b[u] == (if u in l[..k] then Refreshed(base[u], now, m) else base[u])
  }

  /** One step of the splice walk: the entry at position `k` is refreshed;
      its links are still those of the list, and `t` is untouched. */
  lemma WalkStep(b: seq<Tcb>, base: seq<Tcb>, l: seq<nat>, s: nat, w: nat, k: nat, t: nat, now: nat, m: nat)
    requires 0 < m && k < |l| && Distinct(l) && t < |base| && t !in l
    requires LinkedAt(base, l, s, w, k) && Walked(b, base, l, k, now, m)
    ensures var b1 := b[l[k] := Refreshed(b[l[k]], now, m)];
      Walked(b1, base, l, k + 1, now, m) && b1[t] == base[t] &&
      b1[l[k]].tickRemain == Rems(l, base, now, m)[k] &&
      b1[l[k]].tickNext == (if k == |l| - 1 then None else Some(l[k + 1])) &&
      b1[l[k]].tickPrev == (if k == 0 then None else Some(l[k - 1]))
  {
    assert l[k] !in l[..k];
    assert t !in l[..k];
    assert l[..k + 1] == l[..k] + [l[k]];
  }

  /** The walk passed the tail: `t` is appended after the last entry. */
  lemma SpliceTail(b: seq<Tcb>, base: seq<Tcb>, l: seq<nat>, t: nat, now: nat, m: nat)
    requires 0 < m && 0 < |l| && Distinct(l) && t < |base| && t !in l
    requires forall j :: 0 <= j < |l| ==> l[j] < |base|
    requires Walked(b, base, l, |l|, now, m)
    ensures var c := l[|l| - 1];
      var b1 := b[t := b[t].(tickNext := None, tickPrev := Some(c))];
      var b2 := b1[c := b1[c].(tickNext := Some(t))];
      SplicedAt(b2, base, l, |l|, t, now, m) && b2[t].tickSpoke == base[t].tickSpoke
  {
    assert l[..|l|] == l;
  }

  /** The walk stopped at the head: `t` becomes the first entry. */
  lemma SpliceHead(b: seq<Tcb>, base: seq<Tcb>, l: seq<nat>, t: nat, now: nat, m: nat)
    requires 0 < m && 0 < |l| && Distinct(l) && t < |base| && t !in l
    requires forall j :: 0 <= j < |l| ==> l[j] < |base|
    requires Walked(b, base, l, 1, now, m)
    ensures var c := l[0];
      var b1 := b[t := b[t].(tickPrev := None, tickNext := Some(c))];
      var b2 := b1[c := b1[c].(tickPrev := Some(t))];
      SplicedAt(b2, base, l, 0, t, now, m) && b2[t].tickSpoke == base[t].tickSpoke
  {
    assert InsertWalkLength(0, |l|) == 1;
  }

  /** The walk stopped at position `k > 0`: `t` goes between entries `k - 1`
      and `k`. */
  lemma SpliceMiddle(b: seq<Tcb>, base: seq<Tcb>, l: seq<nat>, k: nat, t: nat, now: nat, m: nat)
    requires 0 < m && 0 < k < |l| && Distinct(l) && t < |base| && t !in l
    requires forall j :: 0 <= j < |l| ==> l[j] < |base|
    requires Walked(b, base, l, k + 1, now, m)
    ensures var c, c0 := l[k], l[k - 1];
      var b1 := b[t := b[t].(tickPrev := Some(c0), tickNext := Some(c))];
      var b2 := b1[c0 := b1[c0].(tickNext := Some(t))];
      var b3 := b2[c := b2[c].(tickPrev := Some(t))];
      SplicedAt(b3, base, l, k, t, now, m) && b3[t].tickSpoke == base[t].tickSpoke
  {
    assert InsertWalkLength(k, |l|) == k + 1;
    assert l[k - 1] in l[..k + 1];
  }

  /** An empty spoke: `t` becomes its only entry. */
  lemma SpliceEmpty(b: seq<Tcb>, t: nat, now: nat, m: nat)
    requires 0 < m && t < |b|
    ensures var b1 := b[t := b[t].(tickNext := None, tickPrev := None)];
      SplicedAt(b1, b, [], 0, t, now, m) && b1[t].tickSpoke == b[t].tickSpoke
  {
  }

  /** Setting `TickSpokePtr` of the spliced task keeps the splice facts. */
  lemma SpliceSetSpoke(b: seq<Tcb>, base: seq<Tcb>, l: seq<nat>, p: nat, t: nat, now: nat, m: nat, s: nat)
    requires 0 < m && p <= |l| && t < |base| && t !in l
    requires forall j :: 0 <= j < |l| ==> l[j] < |base|
    requires SplicedAt(b, base, l, p, t, now, m) && b[t].tickSpoke == base[t].tickSpoke
    ensures SplicedAt(b[t := b[t].(tickSpoke := Some(s))], base, l, p, t, now, m)
  {
    assert b[t] == b[t].(tickSpoke := base[t].tickSpoke);
  }

  /** The splice walk of `OS_TickListInsert` over a non-empty spoke whose
      list is `l`: entries are refreshed while they are closer to their match
      than `t`; `t` goes in front of the first that is not, or after the
      tail. `atHead` says that `t` became the spoke's first entry. */
  method SpliceWalk(b0: seq<Tcb>, first: nat, t: nat, now: nat, m: nat, ghost l: seq<nat>, ghost s: nat, ghost w: nat)
    returns (b: seq<Tcb>, atHead: bool)
    requires 0 < m && t < |b0| && t !in l && 0 < |l| && first == l[0]
    requires ListWF(b0, l, s, w)
    ensures var p := FirstAtLeast(Rems(l, b0, now, m), b0[t].tickRemain);
      p <= |l| && (forall j :: 0 <= j < |l| ==> l[j] < |b0|) &&
      SplicedAt(b, b0, l, p, t, now, m) && b[t].tickSpoke == b0[t].tickSpoke && atHead == (p == 0)
  {
    ghost var r := b0[t].tickRemain;
    ghost var p := FirstAtLeast(Rems(l, b0, now, m), r);
    assert forall j :: 0 <= j < |l| ==> l[j] < |b0| by {
      forall j | 0 <= j < |l| ensures l[j] < |b0| { assert LinkedAt(b0, l, s, w, j); }
    }
    b := b0;
    atHead := false;
    var tcb1: Option<nat> := Some(first);
    ghost var k := 0;
    while tcb1.Some?
      invariant |b| == |b0|
      invariant tcb1.Some? ==> k < |l| && tcb1.value == l[k] && k <= p && Walked(b, b0, l, k, now, m) && !atHead
      invariant tcb1.None? ==>
        SplicedAt(b, b0, l, p, t, now, m) && b[t].tickSpoke == b0[t].tickSpoke && atHead == (p == 0)
      decreases if tcb1.Some? then |l| - k else 0
    {
      var c := tcb1.value;
      assert LinkedAt(b0, l, s, w, k);
      WalkStep(b, b0, l, s, w, k, t, now, m);
      b := b[c := Refreshed(b[c], now, m)];
      if b[t].tickRemain > b[c].tickRemain {
        if b[c].tickNext.Some? {
          tcb1 := b[c].tickNext;
          k := k + 1;
        } else {
          assert p == |l|;
          SpliceTail(b, b0, l, t, now, m);
          b := b[t := b[t].(tickNext := None, tickPrev := Some(c))];
          b := b[c := b[c].(tickNext := Some(t))];
          tcb1 := None;
        }
      } else {
        assert p == k;
        if b[c].tickPrev.None? {
          SpliceHead(b, b0, l, t, now, m);
          b := b[t := b[t].(tickPrev := None, tickNext := Some(c))];
          b := b[c := b[c].(tickPrev := Some(t))];
          atHead := true;
        } else {
          var tcb0 := b[c].tickPrev.value;
          SpliceMiddle(b, b0, l, k, t, now, m);
          b := b[t := b[t].(tickPrev := Some(tcb0), tickNext := Some(c))];
          b := b[tcb0 := b[tcb0].(tickNext := Some(t))];
          b := b[c := b[c].(tickPrev := Some(t))];
        }
        tcb1 := None;
      }
    }
  }

  /** The configuration checks of `OS_TickTaskInit`, first failure wins:
      a null stack base, then a stack below the minimum size, then a
      priority at or above the idle task's. `None` lets creation go ahead. */
  function TickTaskCfgErr(stkBaseSet: bool, stkSize: nat, stkSizeMin: nat, prio: nat, prioMax: nat): (r: Option<OsErr>)
    requires 0 < prioMax
    ensures r == Some(TickStkInvalid) <==> !stkBaseSet
    ensures r == Some(TickStkSizeInvalid) <==> stkBaseSet && stkSize < stkSizeMin
    ensures r == Some(TickPrioInvalid) <==> stkBaseSet && stkSize >= stkSizeMin && prio >= prioMax - 1
    ensures r.None? <==> stkBaseSet && stkSize >= stkSizeMin && prio < prioMax - 1
  {
    if !stkBaseSet then Some(TickStkInvalid)
    else if stkSize < stkSizeMin then Some(TickStkSizeInvalid)
    else if prio >= prioMax - 1 then Some(TickPrioInvalid)
    else None
  }

  /** What the wheel's shape says about the task at position `i` of spoke
      `s` and its two neighbours. */
  lemma UnlinkNeighbours(spokes: seq<Spoke>, a: seq<Tcb>, lists: seq<seq<nat>>, s: nat, i: nat)
    requires WheelWF(spokes, a, lists) && s < |lists| && i < |lists[s]|
    ensures var l := lists[s]; var t := l[i];
      t < |a| && a[t].tickSpoke == Some(s) && Distinct(l) &&
      (forall j :: 0 <= j < |l| ==> l[j] < |a|) &&
      a[t].tickPrev == (if i == 0 then None else Some(l[i - 1])) &&
      a[t].tickNext == (if i == |l| - 1 then None else Some(l[i + 1])) &&
      a[t].tickPrev != Some(t) && a[t].tickNext != Some(t) &&
      (a[t].tickPrev.Some? ==> a[t].tickPrev != a[t].tickNext) &&
      (spokes[s].first == Some(t) <==> i == 0)
  {
    var l := lists[s];
    assert ListWF(a, l, s, |lists|) && SpokeHolds(spokes[s], l);
    assert LinkedAt(a, l, s, |lists|, i);
    forall j | 0 <= j < |l| ensures l[j] < |a| {
      assert LinkedAt(a, l, s, |lists|, j);
    }
  }

  /** The unlinking surgery of `OS_TickListRemove` on task `t = lists[s][i]`
      removes position `i` from the spoke's list, keeps the wheel well
      formed, and keeps its order. */
  lemma {:induction false} UnlinkEffect(
    spokes: seq<Spoke>, a: seq<Tcb>, lists: seq<seq<nat>>, s: nat, i: nat,
    spokes2: seq<Spoke>, b: seq<Tcb>, m: nat)
    requires WheelWF(spokes, a, lists) && s < |lists| && i < |lists[s]|
    requires var l := lists[s]; var t := l[i];
      t < |a| && a[t].tickSpoke == Some(s) && Distinct(l) &&
      (forall j :: 0 <= j < |l| ==> l[j] < |a|) &&
      a[t].tickPrev == (if i == 0 then None else Some(l[i - 1])) &&
      a[t].tickNext == (if i == |l| - 1 then None else Some(l[i + 1]))
    requires var l := lists[s]; var t := l[i];
      |b| == |a| && b[t] == Detached(a[t]) &&
      (i > 0 ==> b[l[i - 1]] == a[l[i - 1]].(tickNext := a[t].tickNext)) &&
      (i + 1 < |l| ==> b[l[i + 1]] == a[l[i + 1]].(tickPrev := a[t].tickPrev)) &&
      (forall u :: (0 <= u < |a| && u != t && (i == 0 || u != l[i - 1]) && (i + 1 == |l| || u != l[i + 1]))
                ==> b[u] == a[u])
    requires spokes2 == spokes[s := spokes[s].(
      first := if i == 0 then a[lists[s][i]].tickNext else spokes[s].first,
      nbrEntries := spokes[s].nbrEntries - 1)]
    ensures WheelWF(spokes2, b, lists[s := lists[s][..i] + lists[s][i + 1..]])
    ensures RemovedFrom(spokes, a, lists, spokes2, b, lists[s := lists[s][..i] + lists[s][i + 1..]], lists[s][i])
    ensures (forall u :: 0 <= u < |a| ==> a[u].tickCtrMatch < m && a[u].tickCtrPrev < m) ==>
            (forall u :: 0 <= u < |b| ==> b[u].tickCtrMatch < m && b[u].tickCtrPrev < m)
  {
    var l := lists[s];
    var t := l[i];
    assert SpokeHolds(spokes[s], l);
    UnlinkKeepsWF(spokes, a, lists, s, i, spokes2, b);
    IndexOfDistinct(l, i);
  }

  /** Changing only a task that is not on spoke `s`'s list leaves that
      list well linked. */
  lemma ListWFIgnores(a: seq<Tcb>, b: seq<Tcb>, l: seq<nat>, s: nat, w: nat, t: nat)
    requires ListWF(a, l, s, w) && t !in l
    requires |b| == |a| && forall u :: 0 <= u < |a| && u != t ==> b[u] == a[u]
    ensures ListWF(b, l, s, w)
  {
    forall i | 0 <= i < |l| ensures LinkedAt(b, l, s, w, i) {
      assert LinkedAt(a, l, s, w, i);
    }
  }

  /** Re-timing a task that is not linked (the error path of
      `OS_TickListInsert`) changes neither the wheel's shape nor its order. */
  lemma RetimeUnlinked(spokes: seq<Spoke>, a: seq<Tcb>, lists: seq<seq<nat>>, t: nat, b: seq<Tcb>, now: nat, m: nat)
    requires WheelWF(spokes, a, lists) && 0 < m
    requires t < |a| && a[t].tickSpoke == None && |b| == |a| && b[t].tickSpoke == None
    requires forall u :: 0 <= u < |a| && u != t ==> b[u] == a[u]
    ensures WheelWF(spokes, b, lists)
    ensures SortedWheel(lists, a, now, m) ==> SortedWheel(lists, b, now, m)
    ensures NoneDueWheel(lists, a, now, m) ==> NoneDueWheel(lists, b, now, m)
    ensures AllTimed(a) ==> AllTimed(b)
  {
    forall s | 0 <= s < |lists| ensures ListWF(b, lists[s], s, |lists|) {
      assert t !in lists[s] by {
        if t in lists[s] { MemberIffSpoke(spokes, a, lists, t, s); }
      }
      ListWFIgnores(a, b, lists[s], s, |lists|, t);
    }
    OrderIgnoresUnlinked(spokes, a, lists, t, b, now, m);
  }

  /** What a splice at position `p` did to each control block: `t` got its
      new timing and spoke, the entries the walk visited were refreshed, and
      tasks outside the list are untouched (links aside, nothing else moved). */
  lemma SpliceTouches(a: seq<Tcb>, base: seq<Tcb>, b: seq<Tcb>, l: seq<nat>, p: nat, t: nat, s: nat, now: nat, m: nat)
    requires 0 < m && p <= |l| && t < |a| && t !in l && (forall j :: 0 <= j < |l| ==> l[j] < |a|)
    requires |base| == |a| && (forall u :: 0 <= u < |a| && u != t ==> base[u] == a[u])
    requires SplicedAt(b, base, l, p, t, now, m) && b[t].tickSpoke == Some(s)
    ensures |b| == |a|
    ensures SameButLinks(b[t], base[t].(tickSpoke := Some(s)))
    ensures forall u :: 0 <= u < |b| && u != t ==>
      SameButLinks(b[u], if u in l[..InsertWalkLength(p, |l|)] then Refreshed(a[u], now, m) else a[u])
    ensures forall u :: 0 <= u < |b| && u != t && u !in l ==> b[u] == a[u]
  {
    var w := InsertWalkLength(p, |l|);
    assert forall x :: x in l[..w] ==> x in l by {
      assert forall j :: 0 <= j < w ==> l[..w][j] == l[j];
    }
    assert p > 0 ==> l[p - 1] in l[..InsertWalkLength(p, |l|)];
    assert p < |l| ==> l[p] in l[..InsertWalkLength(p, |l|)];
  }

  /** A splice moves no other task on or off the wheel and changes no
      state, so if every linked task was in a timed wait, and so is `t`,
      every linked task still is. */
  lemma SpliceKeepsTimed(a: seq<Tcb>, base: seq<Tcb>, b: seq<Tcb>, l: seq<nat>, p: nat, t: nat, s: nat, now: nat, m: nat)
    requires 0 < m && p <= |l| && t < |a| && t !in l && (forall j :: 0 <= j < |l| ==> l[j] < |a|)
    requires |base| == |a| && (forall u :: 0 <= u < |a| && u != t ==> base[u] == a[u])
    requires SplicedAt(b, base, l, p, t, now, m) && b[t].tickSpoke == Some(s)
    requires base[t].taskState == a[t].taskState
    requires AllTimed(a) && IsTimed(a[t].taskState)
    ensures AllTimed(b)
  {
    SpliceTouches(a, base, b, l, p, t, s, now, m);
  }

  /** The splice performed by `OS_TickListInsert`: task `t`, not linked in
      state `a`, gets its new timing (state `base`) and is linked at the
      position the walk finds. The wheel stays well formed, the spoke gets
      `t` at position `p`, and the order is kept. */
  lemma {:induction false} SpliceEffect(
    spokes: seq<Spoke>, a: seq<Tcb>, lists: seq<seq<nat>>, s: nat, t: nat, base: seq<Tcb>,
    p: nat, spokes2: seq<Spoke>, b: seq<Tcb>, now: nat, m: nat)
    requires WheelWF(spokes, a, lists) && 0 < m && s < |lists| && t < |a| && a[t].tickSpoke == None
    requires |base| == |a| && (forall u :: 0 <= u < |a| && u != t ==> base[u] == a[u])
    requires base[t] == a[t].(tickCtrMatch := base[t].tickCtrMatch, tickRemain := base[t].tickRemain,
                              tickCtrPrev := base[t].tickCtrPrev)
    requires base[t].tickCtrMatch % |lists| == s && base[t].tickRemain == Dist(base[t].tickCtrMatch, now, m)
    requires p == FirstAtLeast(Rems(lists[s], base, now, m), base[t].tickRemain)
    requires forall j :: 0 <= j < |lists[s]| ==> lists[s][j] < |a|
    requires p <= |lists[s]| && SplicedAt(b, base, lists[s], p, t, now, m) && b[t].tickSpoke == Some(s)
    requires spokes2 == spokes[s := Spoke(if p == 0 then Some(t) else spokes[s].first,
                                          spokes[s].nbrEntries + 1,
                                          Max(spokes[s].nbrEntriesMax, spokes[s].nbrEntries + 1))]
    ensures WheelWF(spokes2, b, lists[s := lists[s][..p] + [t] + lists[s][p..]])
    ensures p == FirstAtLeast(Rems(lists[s], a, now, m), Rem(b, t, now, m))
    ensures SortedWheel(lists, a, now, m) ==>
            SortedWheel(lists[s := lists[s][..p] + [t] + lists[s][p..]], b, now, m)
    ensures NoneDueWheel(lists, a, now, m) && base[t].tickRemain != 0 ==>
            NoneDueWheel(lists[s := lists[s][..p] + [t] + lists[s][p..]], b, now, m)
  {
    var l := lists[s];
    assert t !in l by {
      if t in l { MemberIffSpoke(spokes, a, lists, t, s); }
    }
    SpliceKeepsWF(spokes, a, lists, s, p, t, spokes2, b);
    RemsFrame(l, a, base, now, m);
    OrderAfterSplice(spokes, a, lists, s, t, b, now, m);
  }

  /** Before the splice: the target spoke's list is well linked over the
      control blocks with `t`'s new timing, and `t` is not in it. */
  lemma ReadyToLink(spokes: seq<Spoke>, a: seq<Tcb>, lists: seq<seq<nat>>, t: nat, s: nat, base: seq<Tcb>)
    requires WheelWF(spokes, a, lists) && s < |lists| && t < |a| && a[t].tickSpoke == None
    requires |base| == |a| && forall u :: 0 <= u < |a| && u != t ==> base[u] == a[u]
    ensures t !in lists[s] && ListWF(base, lists[s], s, |lists|) && SpokeHolds(spokes[s], lists[s])
  {
    assert t !in lists[s] by {
      if t in lists[s] { MemberIffSpoke(spokes, a, lists, t, s); }
    }
    ListWFIgnores(a, base, lists[s], s, |lists|, t);
  }

  /** The control blocks and the spoke after a successful insertion are the
      ones `InsertedAt` describes, and every tick value stays in range. */
  lemma InsertRecord(
    a: seq<Tcb>, lists: seq<seq<nat>>, spokes: seq<Spoke>, t: nat, tm: Timing, s: nat,
    base: seq<Tcb>, p: nat, spokes2: seq<Spoke>, b: seq<Tcb>, now: nat, m: nat)
    requires 0 < m && 0 < |lists| == |spokes| && s == tm.tickCtrMatch % |lists| && t < |a| && t !in lists[s]
    requires forall u :: 0 <= u < |a| ==> a[u].tickCtrMatch < m && a[u].tickCtrPrev < m
    requires tm.tickCtrMatch < m && tm.tickCtrPrev < m
    requires base == a[t := a[t].(tickCtrMatch := tm.tickCtrMatch, tickRemain := tm.tickRemain,
                                  tickCtrPrev := tm.tickCtrPrev)]
    requires p == FirstAtLeast(Rems(lists[s], base, now, m), tm.tickRemain) && p <= |lists[s]|
    requires forall j :: 0 <= j < |lists[s]| ==> lists[s][j] < |a|
    requires SplicedAt(b, base, lists[s], p, t, now, m) && b[t].tickSpoke == Some(s)
    requires spokes2 == spokes[s := Spoke(if p == 0 then Some(t) else spokes[s].first,
                                          spokes[s].nbrEntries + 1,
                                          Max(spokes[s].nbrEntriesMax, spokes[s].nbrEntries + 1))]
    ensures InsertedAt(spokes, a, lists, spokes2, b, lists[s := lists[s][..p] + [t] + lists[s][p..]], t, tm, now, m)
    ensures forall u :: 0 <= u < |b| ==> b[u].tickCtrMatch < m && b[u].tickCtrPrev < m
  {
    RemsFrame(lists[s], a, base, now, m);
    SpliceTouches(a, base, b, lists[s], p, t, s, now, m);
  }

  /** The successful path of `OS_TickListInsert` as a whole: the wheel stays
      well formed, the insertion is the one `InsertedAt` describes, and the
      order of every spoke and the absence of due entries are kept. */
  lemma InsertEffect(
    spokes: seq<Spoke>, a: seq<Tcb>, lists: seq<seq<nat>>, t: nat, tm: Timing,
    base: seq<Tcb>, p: nat, spokes2: seq<Spoke>, b: seq<Tcb>, now: nat, m: nat)
    requires WheelWF(spokes, a, lists) && 0 < m && 0 < |lists| && t < |a| && a[t].tickSpoke == None
    requires forall u :: 0 <= u < |a| ==> a[u].tickCtrMatch < m && a[u].tickCtrPrev < m
    requires tm.tickCtrMatch < m && tm.tickCtrPrev < m && tm.tickRemain == Dist(tm.tickCtrMatch, now, m)
    requires base == a[t := a[t].(tickCtrMatch := tm.tickCtrMatch, tickRemain := tm.tickRemain,
                                  tickCtrPrev := tm.tickCtrPrev)]
    requires var s := tm.tickCtrMatch % |lists|;
      p == FirstAtLeast(Rems(lists[s], base, now, m), tm.tickRemain) && p <= |lists[s]| &&
      (forall j :: 0 <= j < |lists[s]| ==> lists[s][j] < |a|) &&
      SplicedAt(b, base, lists[s], p, t, now, m) && b[t].tickSpoke == Some(s) &&
      spokes2 == spokes[s := Spoke(if p == 0 then Some(t) else spokes[s].first,
                                   spokes[s].nbrEntries + 1,
                                   Max(spokes[s].nbrEntriesMax, spokes[s].nbrEntries + 1))]
    ensures var s := tm.tickCtrMatch % |lists|;
      var lists2 := lists[s := lists[s][..p] + [t] + lists[s][p..]];
      WheelWF(spokes2, b, lists2) &&
      InsertedAt(spokes, a, lists, spokes2, b, lists2, t, tm, now, m) &&
      (forall u :: 0 <= u < |b| ==> b[u].tickCtrMatch < m && b[u].tickCtrPrev < m) &&
      (SortedWheel(lists, a, now, m) ==> SortedWheel(lists2, b, now, m)) &&
      (NoneDueWheel(lists, a, now, m) && tm.tickRemain != 0 ==> NoneDueWheel(lists2, b, now, m)) &&
      (AllTimed(a) && IsTimed(a[t].taskState) ==> AllTimed(b))
  {
    var s := tm.tickCtrMatch % |lists|;
    assert t !in lists[s] by {
      if t in lists[s] { MemberIffSpoke(spokes, a, lists, t, s); }
    }
    SpliceEffect(spokes, a, lists, s, t, base, p, spokes2, b, now, m);
    InsertRecord(a, lists, spokes, t, tm, s, base, p, spokes2, b, now, m);
    if AllTimed(a) && IsTimed(a[t].taskState) {
      SpliceKeepsTimed(a, base, b, lists[s], p, t, s, now, m);
    }
  }

  /** Editing fields of one control block other than its links and match
      keeps the wheel well formed and every tick value in range. */
  lemma EditKeepsWF(spokes: seq<Spoke>, a: seq<Tcb>, lists: seq<seq<nat>>, t: nat, b: seq<Tcb>, m: nat)
    requires WheelWF(spokes, a, lists) && t < |a| && |b| == |a|
    requires SameLinks(b[t], a[t]) && b[t].tickCtrPrev == a[t].tickCtrPrev
    requires forall u :: 0 <= u < |a| && u != t ==> b[u] == a[u]
    requires forall u :: 0 <= u < |a| ==> a[u].tickCtrMatch < m && a[u].tickCtrPrev < m
    ensures WheelWF(spokes, b, lists)
    ensures forall u :: 0 <= u < |b| ==> b[u].tickCtrMatch < m && b[u].tickCtrPrev < m
  {
    WheelWFFrame(spokes, a, b, lists);
  }

  /** A removal described from an edited copy of `t`'s control block is the
      same removal described from the original, when the edit left the links
      alone. */
  lemma RemovedAfterEdit(
    sp0: seq<Spoke>, tc0: seq<Tcb>, ls0: seq<seq<nat>>,
    sp1: seq<Spoke>, tc1: seq<Tcb>, ls1: seq<seq<nat>>, t: nat, x: Tcb)
    requires t < |tc0| && SameLinks(x, tc0[t])
    requires RemovedFrom(sp0, tc0[t := x], ls0, sp1, tc1, ls1, t)
    ensures RemovedFrom(sp0, tc0, ls0, sp1, tc1, ls1, t)
  {
  }

  /** Editing the removed task afterwards does not change the removal. */
  lemma RemovedThenEdit(
    sp0: seq<Spoke>, tc0: seq<Tcb>, ls0: seq<seq<nat>>,
    sp1: seq<Spoke>, tc1: seq<Tcb>, ls1: seq<seq<nat>>, t: nat, y: Tcb)
    requires t < |tc0| && RemovedFrom(sp0, tc0, ls0, sp1, tc1, ls1, t)
    ensures RemovedFrom(sp0, tc0, ls0, sp1, tc1[t := y], ls1, t)
  {
  }

  /** Visiting a control block only refreshes its remaining or expires it,
      so two blocks equal up to links stay equal up to links. */
  lemma VisitedIgnoresLinks(x: Tcb, y: Tcb, now: nat, m: nat, ts: nat)
    requires 0 < m && SameButLinks(x, y)
    ensures SameButLinks(Visited(x, now, m, ts), Visited(y, now, m, ts))
    ensures IsDue(x, now) ==> Visited(x, now, m, ts) == Visited(y, now, m, ts)
  {
  }

  // ---------------------------------------------------------------------
  // The sweep of `OS_TickListUpdate`, one visited entry at a time

  /** State 1 is where the sweep of spoke `s` stands after visiting the
      first `k` entries of the list `ls0[s]` that the spoke held when the
      tick began (state 0): the visited entries that were not due are still
      linked in front of the unvisited rest, every visited task is as
      `Visited` leaves it (links aside while it stays linked), every task
      off the wheel is exactly as the sweep left it, the foreign calls made so far are recorded, the
      spoke keeps its peak, and no other spoke has changed. */
  ghost predicate SweptTo(
    sp0: seq<Spoke>, tc0: seq<Tcb>, ls0: seq<seq<nat>>, ev0: seq<Event>,
    sp1: seq<Spoke>, tc1: seq<Tcb>, ls1: seq<seq<nat>>, ev1: seq<Event>,
    s: nat, k: nat, now: nat, m: nat, ts: nat)
    requires 0 < m
  {
    s < |ls0| && s < |sp0| && |sp1| == |sp0| && k <= |ls0[s]| &&
    ls1 == ls0[s := Survivors(ls0[s][..k], tc0, now) + ls0[s][k..]] &&
    ev1 == ev0 + WalkEvents(ls0[s][..k], tc0, now) &&
    SweptFrom(tc0, tc1, ls0[s], k, now, m, ts) &&
    SweptOffWheel(tc0, tc1, ls0[s], k, now, m, ts) &&
    sp1[s].nbrEntriesMax == sp0[s].nbrEntriesMax &&
    forall s' :: 0 <= s' < |sp0| && s' != s ==> sp1[s'] == sp0[s']
  }

  /** Before the first visit the sweep has changed nothing. */
  lemma SweepStart(sp0: seq<Spoke>, tc0: seq<Tcb>, ls0: seq<seq<nat>>, ev0: seq<Event>, s: nat, now: nat, m: nat, ts: nat)
    requires 0 < m && s < |ls0| && |sp0| == |ls0|
    ensures SweptTo(sp0, tc0, ls0, ev0, sp0, tc0, ls0, ev0, s, 0, now, m, ts)
  {
    assert ls0[s][..0] == [] && ls0[s][0..] == ls0[s];
    assert [] + ls0[s] == ls0[s];
    assert forall i :: 0 <= i < |ls0| ==> ls0[s := ls0[s]][i] == ls0[i];
  }

  /** A whole sweep of the spoke that tick `now` hashes to, one tick after
      `now0`, keeps the wheel sorted and free of due entries, leaves only
      timed waits linked, and takes off the wheel every task whose match is
      the new tick. */
  lemma SweepKeepsOrder(
    sp0: seq<Spoke>, tc0: seq<Tcb>, ls0: seq<seq<nat>>, ev0: seq<Event>,
    sp1: seq<Spoke>, tc1: seq<Tcb>, ls1: seq<seq<nat>>, ev1: seq<Event>,
    now0: nat, now: nat, m: nat, ts: nat)
    requires WheelWF(sp0, tc0, ls0) && 0 < m && now0 < m && 0 < |ls0| && now == Wrap(now0 + 1, m)
    requires forall u :: 0 <= u < |tc0| ==> tc0[u].tickCtrMatch < m
    requires SweptTo(sp0, tc0, ls0, ev0, sp1, tc1, ls1, ev1,
                     now % |ls0|, WalkLength(ls0[now % |ls0|], tc0, now), now, m, ts)
    requires AllTimed(tc0) && SortedWheel(ls0, tc0, now0, m) && NoneDueWheel(ls0, tc0, now0, m)
    ensures AllTimed(tc1) && SortedWheel(ls1, tc1, now, m) && NoneDueWheel(ls1, tc1, now, m)
    ensures forall u :: 0 <= u < |tc0| && tc0[u].tickSpoke.Some? && tc0[u].tickCtrMatch == now ==>
      u in ls0[now % |ls0|][..WalkLength(ls0[now % |ls0|], tc0, now)] &&
      tc1[u] == Expired(tc0[u], ts) &&
      forall e :: e in ExpiryEvents(u, tc0[u].taskState) ==> e in ev1
  {
    OrderAfterSweep(sp0, tc0, ls0, tc1, ls1, now0, m, ts);
    forall u | 0 <= u < |tc0| && tc0[u].tickSpoke.Some? && tc0[u].tickCtrMatch == now
      ensures u in ls0[now % |ls0|][..WalkLength(ls0[now % |ls0|], tc0, now)] &&
              tc1[u] == Expired(tc0[u], ts) &&
              forall e :: e in ExpiryEvents(u, tc0[u].taskState) ==> e in ev1
    {
      SweepExpiresDue(sp0, tc0, ls0, ev0, sp1, tc1, ls1, ev1, now, m, ts, u);
    }
  }

  /** A timed wait whose match is not the new tick is still waiting after
      the sweep: same spoke, same state, same match. */
  lemma WaitSurvivesTick(
    sp0: seq<Spoke>, tc0: seq<Tcb>, ls0: seq<seq<nat>>, ev0: seq<Event>,
    sp1: seq<Spoke>, tc1: seq<Tcb>, ls1: seq<seq<nat>>, ev1: seq<Event>,
    now: nat, m: nat, ts: nat, t: nat)
    requires 0 < m && 0 < |ls0|
    requires SweptTo(sp0, tc0, ls0, ev0, sp1, tc1, ls1, ev1,
                     now % |ls0|, WalkLength(ls0[now % |ls0|], tc0, now), now, m, ts)
    requires t < |tc0| && IsTimed(tc0[t].taskState) && tc0[t].tickCtrMatch != now
    ensures tc1[t].tickSpoke == tc0[t].tickSpoke && tc1[t].taskState == tc0[t].taskState
    ensures tc1[t].tickCtrMatch == tc0[t].tickCtrMatch
  {
    var l := ls0[now % |ls0|];
    SweptKeepsUndue(tc0, tc1, l, WalkLength(l, tc0, now), now, m, ts, t);
  }

  /** The `j + 1`-th tick of a delay of `d` ticks armed at `t0`, on a
      wheel of timed waits kept in order with none due: the wheel stays so,
      and the delayed task `t` is still waiting unless this is the `d`-th
      tick, when it has been made ready and taken off the wheel. */
  lemma {:induction false} DelayTick(
    sp0: seq<Spoke>, tc0: seq<Tcb>, ls0: seq<seq<nat>>, ev0: seq<Event>,
    sp1: seq<Spoke>, tc1: seq<Tcb>, ls1: seq<seq<nat>>, ev1: seq<Event>,
    now0: nat, now: nat, m: nat, ts: nat, t: nat, t0: nat, d: nat, j: nat, k: nat)
    requires WheelWF(sp0, tc0, ls0) && 0 < m && 0 < |ls0|
    requires forall u :: 0 <= u < |tc0| ==> tc0[u].tickCtrMatch < m
    requires AllTimed(tc0) && SortedWheel(ls0, tc0, now0, m) && NoneDueWheel(ls0, tc0, now0, m)
    requires t0 < m && j < d < m && k == j + 1 && now0 == Wrap(t0 + j, m) && now == Wrap(now0 + 1, m)
    requires SweptTo(sp0, tc0, ls0, ev0, sp1, tc1, ls1, ev1,
                     now % |ls0|, WalkLength(ls0[now % |ls0|], tc0, now), now, m, ts)
    requires t < |tc0| && tc0[t].tickSpoke.Some? && tc0[t].taskState == Dly
    requires tc0[t].tickCtrMatch == Wrap(t0 + d, m)
    ensures AllTimed(tc1) && SortedWheel(ls1, tc1, now, m) && NoneDueWheel(ls1, tc1, now, m)
    ensures now == Wrap(t0 + k, m)
    ensures k < d ==>
      tc1[t].tickSpoke.Some? && tc1[t].taskState == Dly && tc1[t].tickCtrMatch == Wrap(t0 + d, m)
    ensures k == d ==>
      tc1[t].taskState == Rdy && tc1[t].tickSpoke == None && MadeReady(t) in ev1
  {
    SweepKeepsOrder(sp0, tc0, ls0, ev0, sp1, tc1, ls1, ev1, now0, now, m, ts);
    WrapStep(t0, j, m);
    DelayDueExactly(t0, d, j + 1, m);
    if j + 1 < d {
      WaitSurvivesTick(sp0, tc0, ls0, ev0, sp1, tc1, ls1, ev1, now, m, ts, t);
    } else {
      assert ExpiryEvents(t, Dly) == [MadeReady(t)];
    }
  }

  /** A task that was linked, timed and due on the tick and is off the
      wheel after the sweep was visited by it, ends exactly as `Expired`
      says, and had its foreign calls made. */
  lemma SweepExpiresDue(
    sp0: seq<Spoke>, tc0: seq<Tcb>, ls0: seq<seq<nat>>, ev0: seq<Event>,
    sp1: seq<Spoke>, tc1: seq<Tcb>, ls1: seq<seq<nat>>, ev1: seq<Event>,
    now: nat, m: nat, ts: nat, u: nat)
    requires 0 < m && 0 < |ls0|
    requires SweptTo(sp0, tc0, ls0, ev0, sp1, tc1, ls1, ev1,
                     now % |ls0|, WalkLength(ls0[now % |ls0|], tc0, now), now, m, ts)
    requires u < |tc0| && tc0[u].tickSpoke.Some? && IsTimed(tc0[u].taskState) && tc0[u].tickCtrMatch == now
    requires tc1[u].tickSpoke == None
    ensures u in ls0[now % |ls0|][..WalkLength(ls0[now % |ls0|], tc0, now)]
    ensures tc1[u] == Expired(tc0[u], ts)
    ensures forall e :: e in ExpiryEvents(u, tc0[u].taskState) ==> e in ev1
  {
    var l := ls0[now % |ls0|];
    var n := WalkLength(l, tc0, now);
    SweptLeavesUnvisited(tc0, tc1, l, n, now, m, ts, u);
    assert tc1[u] == Visited(tc0[u], now, m, ts);
    WalkEventsHas(l[..n], tc0, now, u);
  }

  /** The entry the sweep visits next is still linked into the swept spoke,
      unchanged since the tick began but for its links, and its next link
      is the entry after it in the original list. */
  lemma {:induction false} SweepCursor(
    sp0: seq<Spoke>, tc0: seq<Tcb>, ls0: seq<seq<nat>>, ev0: seq<Event>,
    sp1: seq<Spoke>, tc1: seq<Tcb>, ls1: seq<seq<nat>>, ev1: seq<Event>,
    s: nat, k: nat, now: nat, m: nat, ts: nat)
    requires 0 < m && WheelWF(sp0, tc0, ls0) && WheelWF(sp1, tc1, ls1)
    requires SweptTo(sp0, tc0, ls0, ev0, sp1, tc1, ls1, ev1, s, k, now, m, ts)
    requires k < |ls0[s]|
    ensures var l := ls0[s]; var t := l[k];
      t < |tc1| && tc1[t].tickSpoke == Some(s) && SameButLinks(tc1[t], tc0[t]) &&
      tc1[t].tickNext == (if k + 1 < |l| then Some(l[k + 1]) else None) &&
      Stops(tc1, t, now) == Stops(tc0, t, now) && DueAt(tc1, t, now) == DueAt(tc0, t, now)
    ensures Distinct(ls0[s]) && Distinct(ls1[s])
  {
    var l := ls0[s];
    var t := l[k];
    var sv := Survivors(l[..k], tc0, now);
    var cl := ls1[s];
    assert cl == sv + l[k..];
    var idx := |sv|;
    assert cl[idx] == t;
    assert ListWF(tc1, cl, s, |ls1|);
    assert LinkedAt(tc1, cl, s, |ls1|, idx);
    if k + 1 < |l| {
      assert cl[idx + 1] == l[k + 1];
    }
    assert ListWF(tc0, l, s, |ls0|);
    assert t !in l[..k] by {
      forall j | 0 <= j < k ensures l[..k][j] != t {
        assert l[..k][j] == l[j];
      }
    }
    SweptLeavesUnvisited(tc0, tc1, l, k, now, m, ts, t);
  }

  /** Where the walk goes after visiting entry `k`: on, or it has visited
      exactly `WalkLength` entries once it stops. */
  lemma WalkAdvance(l: seq<nat>, tcbs: seq<Tcb>, k: nat, now: nat)
    requires k < |l| && k <= StopIndex(l, tcbs, now)
    ensures Stops(tcbs, l[k], now) ==> k + 1 == WalkLength(l, tcbs, now)
    ensures !Stops(tcbs, l[k], now) ==> k + 1 <= StopIndex(l, tcbs, now)
  {
  }

  /** Visiting a due entry, as `VisitEntry` promises to, takes the sweep
      from `k` visited entries to `k + 1`: the entry leaves the list. */
  lemma {:induction false} SweepStepDue(
    sp0: seq<Spoke>, tc0: seq<Tcb>, ls0: seq<seq<nat>>, ev0: seq<Event>,
    sp1: seq<Spoke>, tc1: seq<Tcb>, ls1: seq<seq<nat>>, ev1: seq<Event>,
    sp2: seq<Spoke>, tc2: seq<Tcb>, ls2: seq<seq<nat>>, ev2: seq<Event>,
    s: nat, k: nat, now: nat, m: nat, ts: nat)
    requires 0 < m
    requires SweptTo(sp0, tc0, ls0, ev0, sp1, tc1, ls1, ev1, s, k, now, m, ts)
    requires k < |ls0[s]| && Distinct(ls0[s]) && Distinct(ls1[s])
    requires var t := ls0[s][k];
      t < |tc1| && tc1[t].tickSpoke == Some(s) && SameButLinks(tc1[t], tc0[t]) &&
      DueAt(tc1, t, now) &&
      RemovedFrom(sp1, tc1, ls1, sp2, tc2, ls2, t) &&
      tc2[t] == Expired(tc1[t], ts) &&
      ev2 == ev1 + ExpiryEvents(t, tc1[t].taskState)
    requires var t := ls0[s][k];
      forall u :: 0 <= u < |tc1| && (tc1[t].tickPrev == Some(u) || tc1[t].tickNext == Some(u)) ==>
        tc1[u].tickSpoke.Some?
    ensures SweptTo(sp0, tc0, ls0, ev0, sp2, tc2, ls2, ev2, s, k + 1, now, m, ts)
  {
    var l := ls0[s];
    var t := l[k];
    var sv := Survivors(l[..k], tc0, now);
    WalkExtends(l, k, tc0, now);
    assert DueAt(tc0, t, now);
    VisitedIgnoresLinks(tc1[t], tc0[t], now, m, ts);
    SweptStepTasks(tc0, tc1, tc2, l, k, now, m, ts);
    SweptOffWheelDue(tc0, tc1, tc2, sp1, ls1, sp2, ls2, l, k, now, m, ts);
    SweepDropsDue(ls0, ls1, ls2, s, k, sv);
    assert Survivors(l[..k + 1], tc0, now) == sv;
  }

  /** Visiting an entry that is not due, as `VisitEntry` promises to, takes
      the sweep from `k` visited entries to `k + 1`: the entry stays linked. */
  lemma {:induction false} SweepStepKept(
    sp0: seq<Spoke>, tc0: seq<Tcb>, ls0: seq<seq<nat>>, ev0: seq<Event>,
    sp1: seq<Spoke>, tc1: seq<Tcb>, ls1: seq<seq<nat>>, ev1: seq<Event>,
    tc2: seq<Tcb>, s: nat, k: nat, now: nat, m: nat, ts: nat)
    requires 0 < m
    requires SweptTo(sp0, tc0, ls0, ev0, sp1, tc1, ls1, ev1, s, k, now, m, ts)
    requires k < |ls0[s]| && Distinct(ls0[s])
    requires var t := ls0[s][k];
      t < |tc1| && tc1[t].tickSpoke.Some? && SameButLinks(tc1[t], tc0[t]) && !DueAt(tc1, t, now) &&
      tc2 == tc1[t := Visited(tc1[t], now, m, ts)]
    ensures SweptTo(sp0, tc0, ls0, ev0, sp1, tc2, ls1, ev1, s, k + 1, now, m, ts)
  {
    var l := ls0[s];
    var t := l[k];
    var sv := Survivors(l[..k], tc0, now);
    WalkExtends(l, k, tc0, now);
    assert !DueAt(tc0, t, now);
    VisitedIgnoresLinks(tc1[t], tc0[t], now, m, ts);
    SweptStepTasks(tc0, tc1, tc2, l, k, now, m, ts);
    SweptOffWheelKept(tc0, tc1, tc2, l, k, now, m, ts);
    SweepKeepsEntry(ls0, ls1, s, k, sv);
  }

  /** The neighbours of a linked task are linked too. */
  lemma NeighboursLinked(spokes: seq<Spoke>, a: seq<Tcb>, lists: seq<seq<nat>>, t: nat)
    requires WheelWF(spokes, a, lists) && t < |a| && a[t].tickSpoke.Some?
    ensures forall u :: 0 <= u < |a| && (a[t].tickPrev == Some(u) || a[t].tickNext == Some(u)) ==>
      a[u].tickSpoke.Some?
  {
    var s := a[t].tickSpoke.value;
    var l := lists[s];
    var i := IndexOf(l, t);
    UnlinkNeighbours(spokes, a, lists, s, i);
    assert ListWF(a, l, s, |lists|);
    if i > 0 {
      assert LinkedAt(a, l, s, |lists|, i - 1);
    }
    if i + 1 < |l| {
      assert LinkedAt(a, l, s, |lists|, i + 1);
    }
  }

  /** The off-wheel half of `SweepStepDue`: the expired entry joins the
      tasks off the wheel in its `Visited` form, and the removal touches no
      other task off the wheel (its neighbours are linked). */
  lemma {:induction false} SweptOffWheelDue(
    tc0: seq<Tcb>, tc1: seq<Tcb>, tc2: seq<Tcb>,
    sp1: seq<Spoke>, ls1: seq<seq<nat>>, sp2: seq<Spoke>, ls2: seq<seq<nat>>,
    l: seq<nat>, k: nat, now: nat, m: nat, ts: nat)
    requires 0 < m && k < |l| && SweptOffWheel(tc0, tc1, l, k, now, m, ts)
    requires var t := l[k];
      t < |tc1| && RemovedFrom(sp1, tc1, ls1, sp2, tc2, ls2, t) &&
      tc2[t] == Visited(tc0[t], now, m, ts) &&
      forall u :: 0 <= u < |tc1| && (tc1[t].tickPrev == Some(u) || tc1[t].tickNext == Some(u)) ==>
        tc1[u].tickSpoke.Some?
    ensures SweptOffWheel(tc0, tc2, l, k + 1, now, m, ts)
  {
    var t := l[k];
    assert l[..k + 1] == l[..k] + [t];
    forall u | 0 <= u < |tc2| && tc2[u].tickSpoke.None?
      ensures tc2[u] == (if u in l[..k + 1] then Visited(tc0[u], now, m, ts) else tc0[u])
    {
      if u != t {
        assert tc2[u].tickSpoke == tc1[u].tickSpoke;
        assert tc2[u] == tc1[u];
      }
    }
  }

  /** The off-wheel half of `SweepStepKept`: the visited entry stays on
      the wheel and nothing else changes. */
  lemma {:induction false} SweptOffWheelKept(
    tc0: seq<Tcb>, tc1: seq<Tcb>, tc2: seq<Tcb>, l: seq<nat>, k: nat, now: nat, m: nat, ts: nat)
    requires 0 < m && k < |l| && SweptOffWheel(tc0, tc1, l, k, now, m, ts)
    requires var t := l[k];
      t < |tc1| && tc1[t].tickSpoke.Some? && !DueAt(tc1, t, now) &&
      tc2 == tc1[t := Visited(tc1[t], now, m, ts)]
    ensures SweptOffWheel(tc0, tc2, l, k + 1, now, m, ts)
  {
    var t := l[k];
    assert l[..k + 1] == l[..k] + [t];
    forall u | 0 <= u < |tc2| && tc2[u].tickSpoke.None?
      ensures tc2[u] == (if u in l[..k + 1] then Visited(tc0[u], now, m, ts) else tc0[u])
    {
      assert u != t;
      assert tc2[u] == tc1[u];
    }
  }

  /** The list half of `SweepStepDue`: unlinking the due entry from the
      current list drops it from between the survivors and the rest. */
  lemma SweepDropsDue(ls0: seq<seq<nat>>, ls1: seq<seq<nat>>, ls2: seq<seq<nat>>, s: nat, k: nat, sv: seq<nat>)
    requires s < |ls0| && k < |ls0[s]| && ls1 == ls0[s := sv + ls0[s][k..]] && Distinct(ls1[s])
    requires ls0[s][k] in ls1[s] &&
      var i := IndexOf(ls1[s], ls0[s][k]);
      ls2 == ls1[s := ls1[s][..i] + ls1[s][i + 1..]]
    ensures ls2 == ls0[s := sv + ls0[s][k + 1..]]
  {
    var cl := ls1[s];
    assert cl[|sv|] == ls0[s][k];
    IndexOfDistinct(cl, |sv|);
    assert cl[..|sv|] == sv;
    assert cl[|sv| + 1..] == ls0[s][k + 1..];
  }

  /** The list half of `SweepStepKept`: the entry moves from
      the unvisited rest to the survivors. */
  lemma SweepKeepsEntry(ls0: seq<seq<nat>>, ls1: seq<seq<nat>>, s: nat, k: nat, sv: seq<nat>)
    requires s < |ls0| && k < |ls0[s]| && ls1 == ls0[s := sv + ls0[s][k..]]
    ensures ls1 == ls0[s := (sv + [ls0[s][k]]) + ls0[s][k + 1..]]
  {
    var l := ls0[s];
    assert l[k..] == [l[k]] + l[k + 1..];
    assert sv + ([l[k]] + l[k + 1..]) == (sv + [l[k]]) + l[k + 1..];
  }

  /** The control-block half of a sweep step: the visited task takes its
      `Visited` form and every other task keeps its relation to state 0. */
  lemma {:induction false} SweptStepTasks(
    tc0: seq<Tcb>, tc1: seq<Tcb>, tc2: seq<Tcb>, l: seq<nat>, k: nat, now: nat, m: nat, ts: nat)
    requires 0 < m && k < |l| && l[k] < |tc0| && Distinct(l)
    requires SweptFrom(tc0, tc1, l, k, now, m, ts) && |tc2| == |tc1|
    requires SameButLinks(tc2[l[k]], Visited(tc0[l[k]], now, m, ts))
    requires forall u :: 0 <= u < |tc1| && u != l[k] ==> SameButLinks(tc2[u], tc1[u])
    ensures SweptFrom(tc0, tc2, l, k + 1, now, m, ts)
  {
    var t := l[k];
    assert l[..k + 1] == l[..k] + [t];
    forall u | 0 <= u < |tc2|
      ensures SameButLinks(tc2[u], if u in l[..k + 1] then Visited(tc0[u], now, m, ts) else tc0[u])
    {
      if u != t {
        assert SameButLinks(tc1[u], if u in l[..k] then Visited(tc0[u], now, m, ts) else tc0[u]);
      }
    }
  }

  /** The field edits of an expiring timed pend, in the order the tick code
      makes them, amount to `Expired`. */
  lemma PendExpiry(x0: Tcb, st: TaskState, ts: nat, now: nat, m: nat)
    requires 0 < m && (x0.taskState == PendTimeout || x0.taskState == PendTimeoutSuspended)
    requires st == (if x0.taskState == PendTimeout then Rdy else Suspended)
    ensures Detached(x0.(tickRemain := Dist(x0.tickCtrMatch, now, m)).(msgPtr := None, msgSize := 0, ts := ts))
              .(taskState := st, pendStatus := PendTimedOut, pendOn := Nothing) == Expired(x0, ts)
  {
  }

  lemma UpdateTwice(a: seq<Tcb>, t: nat, x: Tcb, y: Tcb)
    requires t < |a|
    ensures a[t := x][t := y] == a[t := y]
  {
  }

  class TickList {
    /** The build configuration (`OS_TICK` width, `OS_TICK_TH_RDY`,
        `OSCfg_TickWheelSize`). */
    const cfg: Config
    /** `OSCfg_TickWheel[]`: a statically allocated array of spokes. */
    const wheel: array<Spoke>
    /** `OSTickCtr`. */
    var tickCtr: nat
    /** `OSTickTaskTimeMax`. */
    var tickTaskTimeMax: nat
    /** The control blocks of all tasks, by task id. */
    var tcbs: seq<Tcb>
    /** The task ids on each spoke, head first. */
    ghost var lists: seq<seq<nat>>
    /** The calls made to `OS_PendListRemove` and the ready list, in order. */
    ghost var events: seq<Event>

    /** The wheel is well linked and every tick value fits in `OS_TICK`. */
    ghost predicate Valid()
      reads this, wheel
    {
      cfg.Valid() && wheel.Length == cfg.wheelSize && tickCtr < cfg.tickMod &&
      WheelWF(wheel[..], tcbs, lists) &&
      forall u :: 0 <= u < |tcbs| ==> tcbs[u].tickCtrMatch < cfg.tickMod && tcbs[u].tickCtrPrev < cfg.tickMod
    }

    /** Every spoke is in ascending order of ticks remaining. */
    ghost predicate Sorted()
      reads this
    {
      cfg.Valid() && SortedWheel(lists, tcbs, tickCtr, cfg.tickMod)
    }

    /** No linked task is due at the current tick. */
    ghost predicate NoneDue()
      reads this
    {
      cfg.Valid() && NoneDueWheel(lists, tcbs, tickCtr, cfg.tickMod)
    }

    /** Every linked task is in one of the four timed wait states. */
    ghost predicate Timed()
      reads this
    {
      AllTimed(tcbs)
    }

    /** The zero-initialised kernel data: an empty wheel, the counter at 0. */
    constructor (cfg: Config, tasks: seq<Tcb>)
      requires cfg.Valid() && Unattached(tasks, cfg.tickMod)
      ensures Valid() && Sorted() && NoneDue() && Timed()
      ensures this.cfg == cfg && tcbs == tasks && events == []
      ensures tickCtr == 0 && tickTaskTimeMax == 0
      ensures fresh(wheel) && forall s :: 0 <= s < wheel.Length ==> wheel[s] == EmptySpoke
    {
      this.cfg := cfg;
      wheel := new Spoke[cfg.wheelSize](_ => EmptySpoke);
      tickCtr := 0;
      tickTaskTimeMax := 0;
      tcbs := tasks;
      lists := seq(cfg.wheelSize, _ => []);
      events := [];
    }

    /** `OS_TickListInit`: every spoke emptied, its counters zeroed. */
    method ListInit()
      requires cfg.Valid() && wheel.Length == cfg.wheelSize
      modifies this, wheel
      ensures forall s :: 0 <= s < wheel.Length ==> wheel[s] == EmptySpoke
      ensures lists == seq(wheel.Length, _ => [])
      ensures tcbs == old(tcbs) && events == old(events)
      ensures tickCtr == old(tickCtr) && tickTaskTimeMax == old(tickTaskTimeMax)
      ensures tickCtr < cfg.tickMod && Unattached(tcbs, cfg.tickMod) ==>
        Valid() && Sorted() && NoneDue() && Timed()
    {
      for i := 0 to wheel.Length
        modifies wheel
        invariant forall s :: 0 <= s < i ==> wheel[s] == EmptySpoke
      {
        wheel[i] := Spoke(None, 0, 0);
      }
      lists := seq(wheel.Length, _ => []);
    }

    /** `OS_TickListResetPeak`: every spoke's high-water mark cleared, nothing
        else touched. */
    method ResetPeak()
      requires Valid()
      modifies wheel
      ensures Valid()
      ensures forall s :: 0 <= s < wheel.Length ==> wheel[s] == old(wheel[s]).(nbrEntriesMax := 0)
    {
      for i := 0 to wheel.Length
        invariant forall s :: 0 <= s < i ==> wheel[s] == old(wheel[s]).(nbrEntriesMax := 0)
        invariant forall s :: i <= s < wheel.Length ==> wheel[s] == old(wheel[s])
      {
        wheel[i] := wheel[i].(nbrEntriesMax := 0);
      }
      assert forall s :: 0 <= s < wheel.Length ==> SpokeHolds(wheel[s], lists[s]) by {
        forall s | 0 <= s < wheel.Length ensures SpokeHolds(wheel[s], lists[s]) {
          assert SpokeHolds(old(wheel[s]), lists[s]);
        }
      }
    }

    /** `OS_TickListRemove`: unlink task `t` from its spoke, if it is on one,
        and clear its tick fields. */
    method Remove(t: nat)
      requires Valid() && t < |tcbs|
      modifies this, wheel
      ensures Valid()
      ensures RemovedFrom(old(wheel[..]), old(tcbs), old(lists), wheel[..], tcbs, lists, t)
      ensures tcbs[t] == if old(tcbs[t].tickSpoke).Some? then Detached(old(tcbs[t])) else old(tcbs[t])
      ensures tickCtr == old(tickCtr) && tickTaskTimeMax == old(tickTaskTimeMax) && events == old(events)
    {
      var spoke := tcbs[t].tickSpoke;
      if spoke.Some? {
        var s := spoke.value;
        ghost var a := tcbs;
        ghost var spokes := wheel[..];
        ghost var lists0 := lists;
        MemberIffSpoke(spokes, a, lists, t, s);
        ghost var l := lists[s];
        ghost var i := IndexOf(l, t);
        UnlinkNeighbours(spokes, a, lists, s, i);
        Unlink(t, s);
        lists := lists[s := l[..i] + l[i + 1..]];
        UnlinkEffect(spokes, a, lists0, s, i, wheel[..], tcbs, cfg.tickMod);
      }
    }

    /** The pointer surgery of `OS_TickListRemove` on a task linked into
        spoke `s`: its neighbours (or the spoke's head) are joined around it,
        its links and match are cleared and the spoke's count drops by one.
        A task that is not the head has a predecessor, which the code
        dereferences without a check. */
    method Unlink(t: nat, s: nat)
      requires s < wheel.Length && t < |tcbs| && 0 < wheel[s].nbrEntries
      requires wheel[s].first == Some(t) <==> tcbs[t].tickPrev.None?
      requires tcbs[t].tickPrev.Some? ==> tcbs[t].tickPrev.value < |tcbs| && tcbs[t].tickPrev != Some(t)
      requires tcbs[t].tickNext.Some? ==> tcbs[t].tickNext.value < |tcbs| && tcbs[t].tickNext != Some(t)
      requires tcbs[t].tickPrev.Some? ==> tcbs[t].tickPrev != tcbs[t].tickNext
      modifies this, wheel
      ensures |tcbs| == |old(tcbs)| && tcbs[t] == Detached(old(tcbs[t]))
      ensures var prev := old(tcbs[t].tickPrev);
        prev.Some? ==> tcbs[prev.value] == old(tcbs[prev.value]).(tickNext := old(tcbs[t].tickNext))
      ensures var next := old(tcbs[t].tickNext);
        next.Some? ==> tcbs[next.value] == old(tcbs[next.value]).(tickPrev := old(tcbs[t].tickPrev))
      ensures forall u :: (0 <= u < |tcbs| && u != t &&
                           Some(u) != old(tcbs[t].tickPrev) && Some(u) != old(tcbs[t].tickNext))
                        ==> tcbs[u] == old(tcbs[u])
      ensures wheel[..] == old(wheel[..])[s := old(wheel[s]).(
        first := if old(tcbs[t].tickPrev).None? then old(tcbs[t].tickNext) else old(wheel[s].first),
        nbrEntries := old(wheel[s].nbrEntries) - 1)]
      ensures lists == old(lists) && events == old(events)
      ensures tickCtr == old(tickCtr) && tickTaskTimeMax == old(tickTaskTimeMax)
    {
      tcbs := tcbs[t := tcbs[t].(tickRemain := 0)];
      if wheel[s].first == Some(t) {
        var next := tcbs[t].tickNext;
        wheel[s] := wheel[s].(first := next);
        if next.Some? {
          tcbs := tcbs[next.value := tcbs[next.value].(tickPrev := None)];
        }
      } else {
        var prev := tcbs[t].tickPrev;
        var next := tcbs[t].tickNext;
        tcbs := tcbs[prev.value := tcbs[prev.value].(tickNext := next)];
        if next.Some? {
          tcbs := tcbs[next.value := tcbs[next.value].(tickPrev := prev)];
        }
      }
      tcbs := tcbs[t := tcbs[t].(tickNext := None, tickPrev := None, tickSpoke := None, tickCtrMatch := 0)];
      wheel[s] := wheel[s].(nbrEntries := wheel[s].nbrEntries - 1);
    }

    /** `OS_TickListInsert`: arm a timed wait for task `t`, which is not on
        the wheel. The option decides the match (relative delay or timeout,
        periodic, or absolute); a zero or out-of-range wait is refused with
        `TimeZeroDly` and leaves the task off the wheel. Otherwise the task
        is linked into the spoke its match hashes to, in front of the first
        entry with at least as many ticks remaining. */
    method Insert(t: nat, time: nat, opt: TimeOpt) returns (err: OsErr)
      requires Valid() && t < |tcbs| && tcbs[t].tickSpoke.None? && time < cfg.tickMod
      modifies this, wheel
      ensures Valid()
      ensures tickCtr == old(tickCtr) && tickTaskTimeMax == old(tickTaskTimeMax) && events == old(events)
      ensures var r := Schedule(opt, time, tickCtr, old(tcbs[t].tickCtrPrev), cfg);
        r.None? ==>
          err == TimeZeroDly && lists == old(lists) && wheel[..] == old(wheel[..]) &&
          tcbs == old(tcbs)[t := old(tcbs[t]).(tickCtrMatch := 0, tickRemain := 0, tickSpoke := None)]
      ensures var r := Schedule(opt, time, tickCtr, old(tcbs[t].tickCtrPrev), cfg);
        r.Some? ==>
          err == NoErr &&
          InsertedAt(old(wheel[..]), old(tcbs), old(lists), wheel[..], tcbs, lists, t, r.value, tickCtr, cfg.tickMod)
      ensures old(Sorted()) ==> Sorted()
      ensures old(NoneDue()) ==> NoneDue()
      ensures old(Timed()) && IsTimed(old(tcbs[t].taskState)) ==> Timed()
    {
      var sched := Schedule(opt, time, tickCtr, tcbs[t].tickCtrPrev, cfg);
      ghost var a := tcbs;
      if sched.None? {
        tcbs := tcbs[t := tcbs[t].(tickCtrMatch := 0, tickRemain := 0, tickSpoke := None)];
        RetimeUnlinked(wheel[..], a, lists, t, tcbs, tickCtr, cfg.tickMod);
        return TimeZeroDly;
      }
      var tm := sched.value;
      tcbs := tcbs[t := tcbs[t].(tickCtrMatch := tm.tickCtrMatch, tickRemain := tm.tickRemain,
                                 tickCtrPrev := tm.tickCtrPrev)];
      Place(t, a, tm);
      err := NoErr;
    }

    /** The second half of `OS_TickListInsert`: `t`, whose timing `tm` is
        already set, is linked into spoke `match % size` and the spoke's
        counters follow. `a` is the state before the timing was set. */
    method Place(t: nat, ghost a: seq<Tcb>, ghost tm: Timing)
      requires cfg.Valid() && wheel.Length == cfg.wheelSize && tickCtr < cfg.tickMod
      requires WheelWF(wheel[..], a, lists) && t < |a| && a[t].tickSpoke == None
      requires forall u :: 0 <= u < |a| ==> a[u].tickCtrMatch < cfg.tickMod && a[u].tickCtrPrev < cfg.tickMod
      requires tm.tickCtrMatch < cfg.tickMod && tm.tickCtrPrev < cfg.tickMod
      requires tm.tickRemain == Dist(tm.tickCtrMatch, tickCtr, cfg.tickMod)
      requires tcbs == a[t := a[t].(tickCtrMatch := tm.tickCtrMatch, tickRemain := tm.tickRemain,
                                    tickCtrPrev := tm.tickCtrPrev)]
      modifies this, wheel
      ensures Valid()
      ensures tickCtr == old(tickCtr) && tickTaskTimeMax == old(tickTaskTimeMax) && events == old(events)
      ensures InsertedAt(old(wheel[..]), a, old(lists), wheel[..], tcbs, lists, t, tm, tickCtr, cfg.tickMod)
      ensures SortedWheel(old(lists), a, tickCtr, cfg.tickMod) ==> Sorted()
      ensures NoneDueWheel(old(lists), a, tickCtr, cfg.tickMod) && tm.tickRemain != 0 ==> NoneDue()
      ensures AllTimed(a) && IsTimed(a[t].taskState) ==> Timed()
    {
      var s := tcbs[t].tickCtrMatch % cfg.wheelSize;
      ghost var spokes := wheel[..];
      ghost var lists0 := lists;
      ghost var base := tcbs;
      ghost var l := lists[s];
      ReadyToLink(spokes, a, lists, t, s, base);
      Link(t, s, l);
      ghost var p := FirstAtLeast(Rems(l, base, tickCtr, cfg.tickMod), tm.tickRemain);
      lists := lists[s := l[..p] + [t] + l[p..]];
      InsertEffect(spokes, a, lists0, t, tm, base, p, wheel[..], tcbs, tickCtr, cfg.tickMod);
    }

    /** The splice walk of `OS_TickListInsert` into spoke `s`, whose list is
        `l`: walking from the head, each visited entry gets its remaining
        refreshed, and `t` goes in front of the first entry whose remaining
        is not below its own, or after the tail. The spoke's count and
        high-water mark follow, and `t` records its spoke. */
    method Link(t: nat, s: nat, ghost l: seq<nat>)
      requires cfg.Valid() && s < wheel.Length && t < |tcbs| && t !in l
      requires ListWF(tcbs, l, s, wheel.Length) && SpokeHolds(wheel[s], l)
      modifies this, wheel
      ensures var p := FirstAtLeast(Rems(l, old(tcbs), tickCtr, cfg.tickMod), old(tcbs[t].tickRemain));
        p <= |l| && (forall j :: 0 <= j < |l| ==> l[j] < |old(tcbs)|) &&
        SplicedAt(tcbs, old(tcbs), l, p, t, tickCtr, cfg.tickMod) && tcbs[t].tickSpoke == Some(s) &&
        wheel[..] == old(wheel[..])[s := Spoke(if p == 0 then Some(t) else old(wheel[s].first),
                                               old(wheel[s].nbrEntries) + 1,
                                               Max(old(wheel[s].nbrEntriesMax), old(wheel[s].nbrEntries) + 1))]
      ensures lists == old(lists) && events == old(events)
      ensures tickCtr == old(tickCtr) && tickTaskTimeMax == old(tickTaskTimeMax)
    {
      ghost var now := tickCtr;
      ghost var m := cfg.tickMod;
      ghost var base := tcbs;
      ghost var p := FirstAtLeast(Rems(l, base, now, m), tcbs[t].tickRemain);
      // `p_spoke` is edited as a value and stored back once
      var sp := wheel[s];
      if sp.nbrEntries == 0 {
        assert l == [];
        SpliceEmpty(tcbs, t, now, m);
        tcbs := tcbs[t := tcbs[t].(tickNext := None, tickPrev := None)];
        sp := sp.(first := Some(t), nbrEntries := 1);
      } else {
        var atHead;
        tcbs, atHead := SpliceWalk(tcbs, sp.first.value, t, tickCtr, cfg.tickMod, l, s, wheel.Length);
        if atHead {
          sp := sp.(first := Some(t));
        }
        sp := sp.(nbrEntries := sp.nbrEntries + 1);
      }
      if sp.nbrEntriesMax < sp.nbrEntries {
        sp := sp.(nbrEntriesMax := sp.nbrEntries);
      }
      assert sp == Spoke(if p == 0 then Some(t) else old(wheel[s].first), old(wheel[s].nbrEntries) + 1,
                         Max(old(wheel[s].nbrEntriesMax), old(wheel[s].nbrEntries) + 1));
      wheel[s] := sp;
      assert wheel[..] == old(wheel[..])[s := sp];
      SpliceSetSpoke(tcbs, base, l, p, t, now, m, s);
      tcbs := tcbs[t := tcbs[t].(tickSpoke := Some(s))];
    }

    /** `OS_TickListUpdate`: one tick. The counter advances and the spoke it
        hashes to is walked from its head, each entry visited as
        `VisitEntry` says, until the first timed wait that is not yet due or
        the end of the list; then the peak duration is updated. `ts` is what
        `OS_TS_GET` gives the pends that time out and `elapsed` the measured
        duration of the walk. */
    method Update(ts: nat, elapsed: nat)
      requires Valid()
      modifies this, wheel
      ensures Valid()
      ensures tickCtr == Wrap(old(tickCtr) + 1, cfg.tickMod)
      ensures tickTaskTimeMax == Max(old(tickTaskTimeMax), elapsed)
      ensures var s := tickCtr % cfg.wheelSize;
        SweptTo(old(wheel[..]), old(tcbs), old(lists), old(events), wheel[..], tcbs, lists, events,
                s, WalkLength(old(lists)[s], old(tcbs), tickCtr), tickCtr, cfg.tickMod, ts)
    {
      ghost var now0, sp0, tc0, ls0, ev0 := tickCtr, wheel[..], tcbs, lists, events;
      tickCtr := Wrap(tickCtr + 1, cfg.tickMod);
      var s := tickCtr % cfg.wheelSize;
      SweepStart(sp0, tc0, ls0, ev0, s, tickCtr, cfg.tickMod, ts);
      Sweep(s, ts, sp0, tc0, ls0, ev0);
      if tickTaskTimeMax < elapsed {
        tickTaskTimeMax := elapsed;
      }
    }

    /** `OS_TickTaskInit`: the counter and the peak duration cleared, the
        wheel initialised, then the tick task's configuration checked in the
        kernel's order (stack base, stack size, priority). `createErr` is what
        `OSTaskCreate` reports when the configuration passes. */
    method TickTaskInit(stkBaseSet: bool, stkSize: nat, stkSizeMin: nat, prio: nat, prioMax: nat,
                        createErr: OsErr) returns (err: OsErr)
      requires cfg.Valid() && wheel.Length == cfg.wheelSize && 0 < prioMax
      modifies this, wheel
      ensures tickCtr == 0 && tickTaskTimeMax == 0
      ensures forall s :: 0 <= s < wheel.Length ==> wheel[s] == EmptySpoke
      ensures lists == seq(wheel.Length, _ => [])
      ensures tcbs == old(tcbs) && events == old(events)
      ensures Unattached(tcbs, cfg.tickMod) ==> Valid() && Sorted() && NoneDue() && Timed()
      ensures match TickTaskCfgErr(stkBaseSet, stkSize, stkSizeMin, prio, prioMax)
        case Some(e) => err == e
        case None => err == createErr
    {
      tickCtr := 0;
      tickTaskTimeMax := 0;
      ListInit();
      if !stkBaseSet {
        return TickStkInvalid;
      }
      if stkSize < stkSizeMin {
        return TickStkSizeInvalid;
      }
      if prio >= prioMax - 1 {
        return TickPrioInvalid;
      }
      err := createErr;
    }

    /** One turn of `OS_TickTask`'s loop once its semaphore pend returns with
        `err`: the tick list is updated only when the pend succeeded and the
        kernel is running; otherwise nothing changes. */
    method TickTaskStep(err: OsErr, running: bool, ts: nat, elapsed: nat)
      requires Valid()
      modifies this, wheel
      ensures Valid()
      ensures !(err == NoErr && running) ==>
        unchanged(this) && wheel[..] == old(wheel[..])
      ensures err == NoErr && running ==>
        tickCtr == Wrap(old(tickCtr) + 1, cfg.tickMod) &&
        tickTaskTimeMax == Max(old(tickTaskTimeMax), elapsed) &&
        var s := tickCtr % cfg.wheelSize;
        SweptTo(old(wheel[..]), old(tcbs), old(lists), old(events), wheel[..], tcbs, lists, events,
                s, WalkLength(old(lists)[s], old(tcbs), tickCtr), tickCtr, cfg.tickMod, ts)
    {
      if err == NoErr {
        if running {
          Update(ts, elapsed);
        }
      }
    }

    /** A delay of `d` ticks armed through `Insert` with `OptDly` (as
        `OSTimeDly` arms it) and then driven by the tick task's updates on a
        wheel of timed waits kept in order with none due: the task is made
        ready, and taken off the wheel, by the `d`-th update and by no
        earlier one. `ticks` counts the updates run until it is ready. */
    method DelayUntilReady(t: nat, d: nat, ts: nat, elapsed: nat) returns (ticks: nat)
      requires Valid() && Sorted() && NoneDue() && Timed()
      requires t < |tcbs| && tcbs[t].tickSpoke.None? && tcbs[t].taskState == Dly && 0 < d < cfg.tickMod
      modifies this, wheel
      ensures Valid() && Sorted() && NoneDue() && Timed()
      ensures ticks == d && tickCtr == Wrap(old(tickCtr) + d, cfg.tickMod)
      ensures t < |tcbs| && tcbs[t].taskState == Rdy && tcbs[t].tickSpoke == None
      ensures MadeReady(t) in events
    {
      ghost var t0 := tickCtr;
      ghost var m := cfg.tickMod;
      var err := Insert(t, d, OptDly);
      ghost var due := Wrap(t0 + d, m);
      ticks := 0;
      while tcbs[t].taskState != Rdy
        invariant 0 < m && m == cfg.tickMod
        invariant Valid() && Sorted() && NoneDue() && Timed()
        invariant t < |tcbs| && ticks <= d && tickCtr == Wrap(t0 + ticks, m)
        invariant ticks < d ==>
          tcbs[t].tickSpoke.Some? && tcbs[t].taskState == Dly && tcbs[t].tickCtrMatch == due
        invariant ticks == d ==>
          tcbs[t].taskState == Rdy && tcbs[t].tickSpoke == None && MadeReady(t) in events
        decreases d - ticks
      {
        ticks := ticks + 1;
        DelayStep(t, ts, elapsed, t0, d, ticks - 1, ticks);
      }
    }

    /** The `k`-th call of `Update` while `t` waits out a delay of `d`
        ticks armed at `t0` (see `DelayTick`). */
    method DelayStep(t: nat, ts: nat, elapsed: nat, ghost t0: nat, ghost d: nat, ghost j: nat, ghost k: nat)
      requires Valid() && Sorted() && NoneDue() && Timed()
      requires t0 < cfg.tickMod && j < d < cfg.tickMod && k == j + 1 && tickCtr == Wrap(t0 + j, cfg.tickMod)
      requires t < |tcbs| && tcbs[t].tickSpoke.Some? && tcbs[t].taskState == Dly
      requires tcbs[t].tickCtrMatch == Wrap(t0 + d, cfg.tickMod)
      modifies this, wheel
      ensures Valid() && Sorted() && NoneDue() && Timed()
      ensures t < |tcbs| && tickCtr == Wrap(t0 + k, cfg.tickMod)
      ensures k < d ==>
        tcbs[t].tickSpoke.Some? && tcbs[t].taskState == Dly && tcbs[t].tickCtrMatch == Wrap(t0 + d, cfg.tickMod)
      ensures k == d ==>
        tcbs[t].taskState == Rdy && tcbs[t].tickSpoke == None && MadeReady(t) in events
    {
      ghost var sp0, tc0, ls0, ev0, now0 := wheel[..], tcbs, lists, events, tickCtr;
      Update(ts, elapsed);
      DelayTick(sp0, tc0, ls0, ev0, wheel[..], tcbs, lists, events, now0, tickCtr, cfg.tickMod, ts, t, t0, d, j, k);
    }

    /** The loop of `OS_TickListUpdate` over spoke `s`, from its head until
        the walk stops or the list ends. */
    method Sweep(s: nat, ts: nat,
                 ghost sp0: seq<Spoke>, ghost tc0: seq<Tcb>, ghost ls0: seq<seq<nat>>, ghost ev0: seq<Event>)
      requires Valid() && WheelWF(sp0, tc0, ls0) && s < wheel.Length
      requires SweptTo(sp0, tc0, ls0, ev0, wheel[..], tcbs, lists, events, s, 0, tickCtr, cfg.tickMod, ts)
      modifies this, wheel
      ensures Valid() && tickCtr == old(tickCtr) && tickTaskTimeMax == old(tickTaskTimeMax)
      ensures SweptTo(sp0, tc0, ls0, ev0, wheel[..], tcbs, lists, events,
                      s, WalkLength(ls0[s], tc0, tickCtr), tickCtr, cfg.tickMod, ts)
    {
      ghost var l := ls0[s];
      assert lists[s] == l;
      assert SpokeHolds(wheel[s], l);
      var cur := wheel[s].first;
      var done := false;
      ghost var k := 0;
      while !done
        invariant Valid() && tickCtr == old(tickCtr) && tickTaskTimeMax == old(tickTaskTimeMax)
        invariant SweptTo(sp0, tc0, ls0, ev0, wheel[..], tcbs, lists, events, s, k, tickCtr, cfg.tickMod, ts)
        invariant !done ==> k <= StopIndex(l, tc0, tickCtr) && cur == (if k < |l| then Some(l[k]) else None)
        invariant done ==> k == WalkLength(l, tc0, tickCtr)
        decreases |l| - k + (if done then 0 else 1)
      {
        if cur.None? {
          assert k == |l|;
          done := true;
        } else {
          done, cur := SweepNext(cur.value, ts, s, sp0, tc0, ls0, ev0, k);
          k := k + 1;
        }
      }
    }

    /** One turn of the loop of `OS_TickListUpdate`, on the `k`-th entry `t`
        of the swept spoke's original list: read the next link, visit `t`,
        and report whether the walk stops and where it goes on. */
    method SweepNext(t: nat, ts: nat, s: nat,
                     ghost sp0: seq<Spoke>, ghost tc0: seq<Tcb>, ghost ls0: seq<seq<nat>>, ghost ev0: seq<Event>,
                     ghost k: nat)
      returns (done: bool, next: Option<nat>)
      requires Valid() && WheelWF(sp0, tc0, ls0)
      requires SweptTo(sp0, tc0, ls0, ev0, wheel[..], tcbs, lists, events, s, k, tickCtr, cfg.tickMod, ts)
      requires k < |ls0[s]| && t == ls0[s][k] && k <= StopIndex(ls0[s], tc0, tickCtr)
      modifies this, wheel
      ensures Valid() && tickCtr == old(tickCtr) && tickTaskTimeMax == old(tickTaskTimeMax)
      ensures SweptTo(sp0, tc0, ls0, ev0, wheel[..], tcbs, lists, events, s, k + 1, tickCtr, cfg.tickMod, ts)
      ensures done ==> k + 1 == WalkLength(ls0[s], tc0, tickCtr)
      ensures !done ==> k + 1 <= StopIndex(ls0[s], tc0, tickCtr)
      ensures next == if k + 1 < |ls0[s]| then Some(ls0[s][k + 1]) else None
    {
      ghost var sp1, tc1, ls1, ev1 := wheel[..], tcbs, lists, events;
      SweepCursor(sp0, tc0, ls0, ev0, sp1, tc1, ls1, ev1, s, k, tickCtr, cfg.tickMod, ts);
      NeighboursLinked(sp1, tc1, ls1, t);
      next := tcbs[t].tickNext;
      done := VisitEntry(t, ts);
      WalkAdvance(ls0[s], tc0, k, tickCtr);
      if DueAt(tc1, t, tickCtr) {
        SweepStepDue(sp0, tc0, ls0, ev0, sp1, tc1, ls1, ev1, wheel[..], tcbs, lists, events,
                     s, k, tickCtr, cfg.tickMod, ts);
      } else {
        SweepStepKept(sp0, tc0, ls0, ev0, sp1, tc1, ls1, ev1, tcbs, s, k, tickCtr, cfg.tickMod, ts);
      }
    }

    /** One pass of the `switch` in `OS_TickListUpdate` on a linked task
        `t`: a task that does not wait on the tick is skipped; a timed wait
        gets its remaining refreshed and, if its match is now, expires and
        leaves the wheel; a timed wait that is not due ends the walk (`done`). */
    method VisitEntry(t: nat, ts: nat) returns (done: bool)
      requires Valid() && t < |tcbs| && tcbs[t].tickSpoke.Some?
      modifies this, wheel
      ensures Valid()
      ensures tickCtr == old(tickCtr) && tickTaskTimeMax == old(tickTaskTimeMax)
      ensures done == Stops(old(tcbs), t, tickCtr)
      ensures DueAt(old(tcbs), t, tickCtr) ==>
        RemovedFrom(old(wheel[..]), old(tcbs), old(lists), wheel[..], tcbs, lists, t) &&
        tcbs[t] == Expired(old(tcbs[t]), ts) &&
        events == old(events) + ExpiryEvents(t, old(tcbs[t].taskState))
      ensures !DueAt(old(tcbs), t, tickCtr) ==>
        tcbs == old(tcbs)[t := Visited(old(tcbs[t]), tickCtr, cfg.tickMod, ts)] &&
        lists == old(lists) && wheel[..] == old(wheel[..]) && events == old(events)
    {
      match tcbs[t].taskState
      case Dly => done := VisitDelay(t, ts);
      case PendTimeout => done := VisitPendTimeout(t, ts);
      case DlySuspended => done := VisitDelaySuspended(t, ts);
      case PendTimeoutSuspended => done := VisitPendTimeoutSuspended(t, ts);
      case _ =>
        assert tcbs == tcbs[t := tcbs[t]];
        done := false;
    }

    /** The `OS_TASK_STATE_DLY` case: an expired delay makes the task ready. */
    method VisitDelay(t: nat, ts: nat) returns (done: bool)
      requires Valid() && t < |tcbs| && tcbs[t].tickSpoke.Some? && tcbs[t].taskState == Dly
      modifies this, wheel
      ensures Valid()
      ensures tickCtr == old(tickCtr) && tickTaskTimeMax == old(tickTaskTimeMax)
      ensures done <==> old(tcbs[t].tickCtrMatch) != tickCtr
      ensures !done ==>
        RemovedFrom(old(wheel[..]), old(tcbs), old(lists), wheel[..], tcbs, lists, t) &&
        tcbs[t] == Expired(old(tcbs[t]), ts) &&
        events == old(events) + ExpiryEvents(t, Dly)
      ensures done ==>
        tcbs == old(tcbs)[t := Refreshed(old(tcbs[t]), tickCtr, cfg.tickMod)] &&
        lists == old(lists) && wheel[..] == old(wheel[..]) && events == old(events)
    {
      ghost var spokes, a, lists0 := wheel[..], tcbs, lists;
      var x := tcbs[t].(tickRemain := Dist(tcbs[t].tickCtrMatch, tickCtr, cfg.tickMod));
      if tickCtr == x.tickCtrMatch {
        x := x.(taskState := Rdy);
        EditKeepsWF(spokes, a, lists, t, tcbs[t := x], cfg.tickMod);
        tcbs := tcbs[t := x];
        TaskRdy(t);
        RemovedAfterEdit(spokes, a, lists0, wheel[..], tcbs, lists, t, x);
        done := false;
      } else {
        EditKeepsWF(spokes, a, lists, t, tcbs[t := x], cfg.tickMod);
        tcbs := tcbs[t := x];
        done := true;
      }
    }

    /** The `OS_TASK_STATE_PEND_TIMEOUT` case: an expired timed pend drops
        any message, is stamped, leaves its wait list, becomes ready and
        records the timeout. */
    method VisitPendTimeout(t: nat, ts: nat) returns (done: bool)
      requires Valid() && t < |tcbs| && tcbs[t].tickSpoke.Some? && tcbs[t].taskState == PendTimeout
      modifies this, wheel
      ensures Valid()
      ensures tickCtr == old(tickCtr) && tickTaskTimeMax == old(tickTaskTimeMax)
      ensures done <==> old(tcbs[t].tickCtrMatch) != tickCtr
      ensures !done ==>
        RemovedFrom(old(wheel[..]), old(tcbs), old(lists), wheel[..], tcbs, lists, t) &&
        tcbs[t] == Expired(old(tcbs[t]), ts) &&
        events == old(events) + ExpiryEvents(t, PendTimeout)
      ensures done ==>
        tcbs == old(tcbs)[t := Refreshed(old(tcbs[t]), tickCtr, cfg.tickMod)] &&
        lists == old(lists) && wheel[..] == old(wheel[..]) && events == old(events)
    {
      ghost var spokes, a, lists0, e := wheel[..], tcbs, lists, events;
      var x := tcbs[t].(tickRemain := Dist(tcbs[t].tickCtrMatch, tickCtr, cfg.tickMod));
      if tickCtr == x.tickCtrMatch {
        EditKeepsWF(spokes, a, lists, t, tcbs[t := x], cfg.tickMod);
        tcbs := tcbs[t := x];
        EndPend(t, ts);
        UpdateTwice(a, t, x, tcbs[t]);
        x := tcbs[t];
        TaskRdy(t);
        var y := tcbs[t].(taskState := Rdy, pendStatus := PendTimedOut, pendOn := Nothing);
        PendExpiry(a[t], Rdy, ts, tickCtr, cfg.tickMod);
        RemovedAfterEdit(spokes, a, lists0, wheel[..], tcbs, lists, t, x);
        RemovedThenEdit(spokes, a, lists0, wheel[..], tcbs, lists, t, y);
        EditKeepsWF(wheel[..], tcbs, lists, t, tcbs[t := y], cfg.tickMod);
        tcbs := tcbs[t := y];
        assert e + [PendRemoved(t)] + [MadeReady(t)] == e + [PendRemoved(t), MadeReady(t)];
        done := false;
      } else {
        EditKeepsWF(spokes, a, lists, t, tcbs[t := x], cfg.tickMod);
        tcbs := tcbs[t := x];
        done := true;
      }
    }

    /** The part both timed-pend cases share once the timeout is reached:
        the message is dropped, the task is stamped with `ts`, and it leaves
        the wait list of the object it pended on (`OS_PendListRemove`). */
    method EndPend(t: nat, ts: nat)
      requires cfg.Valid() && wheel.Length == cfg.wheelSize && tickCtr < cfg.tickMod && t < |tcbs|
      requires WheelWF(wheel[..], tcbs, lists)
      requires forall u :: 0 <= u < |tcbs| ==> tcbs[u].tickCtrMatch < cfg.tickMod && tcbs[u].tickCtrPrev < cfg.tickMod
      modifies this
      ensures Valid()
      ensures tcbs == old(tcbs)[t := old(tcbs[t]).(msgPtr := None, msgSize := 0, ts := ts)]
      ensures events == old(events) + [PendRemoved(t)]
      ensures lists == old(lists) && tickCtr == old(tickCtr) && tickTaskTimeMax == old(tickTaskTimeMax)
    {
      EditKeepsWF(wheel[..], tcbs, lists, t, tcbs[t := tcbs[t].(msgPtr := None, msgSize := 0, ts := ts)], cfg.tickMod);
      tcbs := tcbs[t := tcbs[t].(msgPtr := None, msgSize := 0, ts := ts)];
      // the object's wait list lies outside the model
      events := events + [PendRemoved(t)];
    }

    /** The `OS_TASK_STATE_DLY_SUSPENDED` case: an expired delay leaves the
        task suspended and off the wheel. */
    method VisitDelaySuspended(t: nat, ts: nat) returns (done: bool)
      requires Valid() && t < |tcbs| && tcbs[t].tickSpoke.Some? && tcbs[t].taskState == DlySuspended
      modifies this, wheel
      ensures Valid()
      ensures tickCtr == old(tickCtr) && tickTaskTimeMax == old(tickTaskTimeMax)
      ensures done <==> old(tcbs[t].tickCtrMatch) != tickCtr
      ensures !done ==>
        RemovedFrom(old(wheel[..]), old(tcbs), old(lists), wheel[..], tcbs, lists, t) &&
        tcbs[t] == Expired(old(tcbs[t]), ts) &&
        events == old(events) + ExpiryEvents(t, DlySuspended)
      ensures done ==>
        tcbs == old(tcbs)[t := Refreshed(old(tcbs[t]), tickCtr, cfg.tickMod)] &&
        lists == old(lists) && wheel[..] == old(wheel[..]) && events == old(events)
    {
      ghost var spokes, a, lists0 := wheel[..], tcbs, lists;
      var x := tcbs[t].(tickRemain := Dist(tcbs[t].tickCtrMatch, tickCtr, cfg.tickMod));
      if tickCtr == x.tickCtrMatch {
        x := x.(taskState := Suspended);
        EditKeepsWF(spokes, a, lists, t, tcbs[t := x], cfg.tickMod);
        tcbs := tcbs[t := x];
        Remove(t);
        RemovedAfterEdit(spokes, a, lists0, wheel[..], tcbs, lists, t, x);
        done := false;
      } else {
        EditKeepsWF(spokes, a, lists, t, tcbs[t := x], cfg.tickMod);
        tcbs := tcbs[t := x];
        done := true;
      }
    }

    /** The `OS_TASK_STATE_PEND_TIMEOUT_SUSPENDED` case: as a timed pend,
        but the task stays suspended instead of becoming ready. */
    method VisitPendTimeoutSuspended(t: nat, ts: nat) returns (done: bool)
      requires Valid() && t < |tcbs| && tcbs[t].tickSpoke.Some? && tcbs[t].taskState == PendTimeoutSuspended
      modifies this, wheel
      ensures Valid()
      ensures tickCtr == old(tickCtr) && tickTaskTimeMax == old(tickTaskTimeMax)
      ensures done <==> old(tcbs[t].tickCtrMatch) != tickCtr
      ensures !done ==>
        RemovedFrom(old(wheel[..]), old(tcbs), old(lists), wheel[..], tcbs, lists, t) &&
        tcbs[t] == Expired(old(tcbs[t]), ts) &&
        events == old(events) + ExpiryEvents(t, PendTimeoutSuspended)
      ensures done ==>
        tcbs == old(tcbs)[t := Refreshed(old(tcbs[t]), tickCtr, cfg.tickMod)] &&
        lists == old(lists) && wheel[..] == old(wheel[..]) && events == old(events)
    {
      ghost var spokes, a, lists0 := wheel[..], tcbs, lists;
      var x := tcbs[t].(tickRemain := Dist(tcbs[t].tickCtrMatch, tickCtr, cfg.tickMod));
      if tickCtr == x.tickCtrMatch {
        EditKeepsWF(spokes, a, lists, t, tcbs[t := x], cfg.tickMod);
        tcbs := tcbs[t := x];
        EndPend(t, ts);
        UpdateTwice(a, t, x, tcbs[t]);
        x := tcbs[t];
        Remove(t);
        var y := tcbs[t].(taskState := Suspended, pendStatus := PendTimedOut, pendOn := Nothing);
        PendExpiry(a[t], Suspended, ts, tickCtr, cfg.tickMod);
        RemovedAfterEdit(spokes, a, lists0, wheel[..], tcbs, lists, t, x);
        RemovedThenEdit(spokes, a, lists0, wheel[..], tcbs, lists, t, y);
        EditKeepsWF(wheel[..], tcbs, lists, t, tcbs[t := y], cfg.tickMod);
        tcbs := tcbs[t := y];
        done := false;
      } else {
        EditKeepsWF(spokes, a, lists, t, tcbs[t := x], cfg.tickMod);
        tcbs := tcbs[t := x];
        done := true;
      }
    }

    /** The part of `OS_TaskRdy` the tick list sees. `OS_TaskRdy` lives in
        another file; the model assumes that it unlinks the task from the
        wheel first (as `OS_TickListRemove` does) and then hands it to the
        ready list, which is recorded as an event. */
    method TaskRdy(t: nat)
      requires Valid() && t < |tcbs|
      modifies this, wheel
      ensures Valid()
      ensures RemovedFrom(old(wheel[..]), old(tcbs), old(lists), wheel[..], tcbs, lists, t)
      ensures tcbs[t] == if old(tcbs[t].tickSpoke).Some? then Detached(old(tcbs[t])) else old(tcbs[t])
      ensures events == old(events) + [MadeReady(t)]
      ensures tickCtr == old(tickCtr) && tickTaskTimeMax == old(tickTaskTimeMax)
    {
      Remove(t);
      events := events + [MadeReady(t)];
    }
  }
}
