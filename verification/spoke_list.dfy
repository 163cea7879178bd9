/** The shape of the tick wheel, stated over values.

    Each spoke's doubly-linked list of control blocks is mirrored by an
    abstract sequence of task ids (`lists[s]`, head first). `WheelWF` ties
    the intrusive links (`TickNextPtr`, `TickPrevPtr`, `TickSpokePtr`), the
    spoke's `FirstPtr` and `NbrEntries` and the hash of `TickCtrMatch` to
    those sequences. The lemmas here show that the two pointer surgeries the
    tick code performs (splicing one task in, unlinking one task) keep that
    shape, and give the order the lists are kept in. */
module SpokeList {
  import opened Wrappers
  import opened TickMath
  import opened TickEntry

  ghost predicate Distinct(l: seq<nat>) {
    forall i, j :: 0 <= i < j < |l| ==> l[i] != l[j]
  }

  /** The control block at position `i` of spoke `s`'s list points back to
      the spoke, to its two neighbours, and hashes to that spoke. */
  ghost predicate LinkedAt(tcbs: seq<Tcb>, l: seq<nat>, s: nat, w: nat, i: int)
    requires 0 <= i < |l|
  {
    l[i] < |tcbs| && 0 < w &&
    tcbs[l[i]].tickSpoke == Some(s) &&
    tcbs[l[i]].tickPrev == (if i == 0 then None else Some(l[i - 1])) &&
    tcbs[l[i]].tickNext == (if i == |l| - 1 then None else Some(l[i + 1])) &&
    tcbs[l[i]].tickCtrMatch % w == s
  }

  ghost predicate ListWF(tcbs: seq<Tcb>, l: seq<nat>, s: nat, w: nat) {
    Distinct(l) && forall i :: 0 <= i < |l| ==> LinkedAt(tcbs, l, s, w, i)
  }

  /** `FirstPtr` is the head of the list and `NbrEntries` its length. */
  ghost predicate SpokeHolds(sp: Spoke, l: seq<nat>) {
    sp.nbrEntries == |l| && sp.first == (if |l| == 0 then None else Some(l[0]))
  }

  /** The whole wheel is well formed: every spoke holds a well-linked list,
      and a task whose `TickSpokePtr` is set is in that spoke's list (so a
      task is linked into at most one spoke, at one position). */
  ghost predicate WheelWF(spokes: seq<Spoke>, tcbs: seq<Tcb>, lists: seq<seq<nat>>) {
    |spokes| == |lists| &&
    (forall s :: 0 <= s < |lists| ==> SpokeHolds(spokes[s], lists[s]) && ListWF(tcbs, lists[s], s, |lists|)) &&
    (forall u :: 0 <= u < |tcbs| && tcbs[u].tickSpoke.Some? ==>
       tcbs[u].tickSpoke.value < |lists| && u in lists[tcbs[u].tickSpoke.value])
  }

  /** Exclusivity: a task is in spoke `s`'s list exactly when its
      `TickSpokePtr` names `s`. */
  lemma {:induction false} MemberIffSpoke(spokes: seq<Spoke>, tcbs: seq<Tcb>, lists: seq<seq<nat>>, u: nat, s: nat)
    requires WheelWF(spokes, tcbs, lists)
    requires u < |tcbs| && s < |lists|
    ensures u in lists[s] <==> tcbs[u].tickSpoke == Some(s)
  {
    if u in lists[s] {
      var i :| 0 <= i < |lists[s]| && lists[s][i] == u;
      assert LinkedAt(tcbs, lists[s], s, |lists|, i);
    }
  }

  /** The first position of a task in a list. */
  function IndexOf(l: seq<nat>, u: nat): (i: nat)
    requires u in l
    ensures i < |l| && l[i] == u && u !in l[..i]
  {
    if l[0] == u then 0
    else
      var j := IndexOf(l[1..], u);
      assert l[1..][..j] == l[1..j + 1];
      assert l[..j + 1] == [l[0]] + l[1..j + 1];
      1 + j
  }

  /** In a list without repetitions, the only position of `l[j]` is `j`. */
  lemma IndexOfDistinct(l: seq<nat>, j: nat)
    requires Distinct(l) && j < |l|
    ensures IndexOf(l, l[j]) == j
  {
  }

  /** Only the link fields and the match matter to the wheel's shape. */
  lemma WheelWFFrame(spokes: seq<Spoke>, a: seq<Tcb>, b: seq<Tcb>, lists: seq<seq<nat>>)
    requires WheelWF(spokes, a, lists)
    requires |b| == |a| && forall u :: 0 <= u < |a| ==> SameLinks(b[u], a[u])
    ensures WheelWF(spokes, b, lists)
  {
    forall s | 0 <= s < |lists|
      ensures ListWF(b, lists[s], s, |lists|)
    {
      forall i | 0 <= i < |lists[s]|
        ensures LinkedAt(b, lists[s], s, |lists|, i)
      {
        assert LinkedAt(a, lists[s], s, |lists|, i);
      }
    }
  }

  /** The members of the other spokes are none of the three tasks touched
      in spoke `s`, so their links are as before. */
  lemma OtherSpokesKept(
    spokes: seq<Spoke>, a: seq<Tcb>, b: seq<Tcb>, lists: seq<seq<nat>>, s: nat, touched: set<nat>)
    requires WheelWF(spokes, a, lists) && s < |lists| && |b| == |a|
    requires forall u :: u in touched ==> u < |a| && a[u].tickSpoke.Some? ==> a[u].tickSpoke == Some(s)
    requires forall u :: 0 <= u < |a| && u !in touched ==> SameLinks(b[u], a[u])
    ensures forall s' :: 0 <= s' < |lists| && s' != s ==> ListWF(b, lists[s'], s', |lists|)
  {
    var w := |lists|;
    forall s' | 0 <= s' < w && s' != s
      ensures ListWF(b, lists[s'], s', w)
    {
      assert ListWF(a, lists[s'], s', w);
      forall j | 0 <= j < |lists[s']|
        ensures LinkedAt(b, lists[s'], s', w, j)
      {
        assert LinkedAt(a, lists[s'], s', w, j);
        if j > 0 { assert LinkedAt(a, lists[s'], s', w, j - 1); }
        if j + 1 < |lists[s']| { assert LinkedAt(a, lists[s'], s', w, j + 1); }
      }
    }
  }

  /** Taking position `i` out of spoke `s` (the surgery of
      `OS_TickListRemove`) leaves a well-formed wheel whose list for `s` is
      the old one without that position. */
  lemma {:induction false} UnlinkKeepsWF(
    spokes: seq<Spoke>, a: seq<Tcb>, lists: seq<seq<nat>>, s: nat, i: nat,
    spokes2: seq<Spoke>, b: seq<Tcb>)
    requires WheelWF(spokes, a, lists)
    requires s < |lists| && i < |lists[s]| && |b| == |a|
    requires forall j :: 0 <= j < |lists[s]| ==> lists[s][j] < |a|
    requires b[lists[s][i]].tickSpoke == None
    requires i > 0 ==>
      SameLinks(b[lists[s][i - 1]], a[lists[s][i - 1]].(tickNext := a[lists[s][i]].tickNext))
    requires i + 1 < |lists[s]| ==>
      SameLinks(b[lists[s][i + 1]], a[lists[s][i + 1]].(tickPrev := a[lists[s][i]].tickPrev))
    requires forall u :: (0 <= u < |a| && u != lists[s][i] &&
                          (i == 0 || u != lists[s][i - 1]) && (i + 1 == |lists[s]| || u != lists[s][i + 1]))
                         ==> SameLinks(b[u], a[u])
    requires |spokes2| == |spokes|
    requires forall s' :: 0 <= s' < |spokes| && s' != s ==> spokes2[s'] == spokes[s']
    requires spokes2[s].nbrEntries + 1 == spokes[s].nbrEntries
    requires spokes2[s].first == if i == 0 then a[lists[s][i]].tickNext else spokes[s].first
    ensures WheelWF(spokes2, b, lists[s := lists[s][..i] + lists[s][i + 1..]])
  {
    var w := |lists|;
    var l := lists[s];
    var t := l[i];
    var l2 := l[..i] + l[i + 1..];
    var lists2 := lists[s := l2];
    assert ListWF(a, l, s, w);
    UnlinkSpokeWF(a, b, l, s, w, i);
    var touched := {t} + (if i > 0 then {l[i - 1]} else {}) + (if i + 1 < |l| then {l[i + 1]} else {});
    forall u | u in touched ensures u < |a| && a[u].tickSpoke == Some(s) {
      if u == t { assert LinkedAt(a, l, s, w, i); }
      else if i > 0 && u == l[i - 1] { assert LinkedAt(a, l, s, w, i - 1); }
      else { assert LinkedAt(a, l, s, w, i + 1); }
    }
    OtherSpokesKept(spokes, a, b, lists, s, touched);
    forall u | 0 <= u < |b| && b[u].tickSpoke.Some?
      ensures b[u].tickSpoke.value < w && u in lists2[b[u].tickSpoke.value]
    {
      if u in touched {
        assert a[u].tickSpoke == Some(s);
        MemberIffSpoke(spokes, a, lists, u, s);
        InWithout(l, i, u);
      } else {
        assert SameLinks(b[u], a[u]);
        MemberIffSpoke(spokes, a, lists, u, a[u].tickSpoke.value);
      }
    }
    UnlinkHead(a, l, s, w, i, spokes[s], spokes2[s]);
  }

  lemma UnlinkHead(a: seq<Tcb>, l: seq<nat>, s: nat, w: nat, i: nat, sp: Spoke, sp2: Spoke)
    requires ListWF(a, l, s, w) && i < |l| && SpokeHolds(sp, l) && l[i] < |a|
    requires sp2.nbrEntries + 1 == sp.nbrEntries
    requires sp2.first == if i == 0 then a[l[i]].tickNext else sp.first
    ensures SpokeHolds(sp2, l[..i] + l[i + 1..])
  {
    assert LinkedAt(a, l, s, w, i);
  }

  /** Any other member of a list is still there once position `i` is dropped. */
  lemma InWithout(l: seq<nat>, i: nat, u: nat)
    requires i < |l| && u in l && u != l[i]
    ensures u in l[..i] + l[i + 1..]
  {
    var j := IndexOf(l, u);
    assert (l[..i] + l[i + 1..])[if j < i then j else j - 1] == u;
  }

  /** The link edits of `OS_TickListRemove` on the task at position `i` of
      `l`, from `a` to `b`: it leaves its spoke, its predecessor takes over
      its next link, its successor its previous link, and no other task's
      links change. */
  ghost predicate UnlinkedAround(a: seq<Tcb>, b: seq<Tcb>, l: seq<nat>, i: nat)
    requires i < |l| && forall j :: 0 <= j < |l| ==> l[j] < |a|
  {
    |b| == |a| &&
    b[l[i]].tickSpoke == None &&
    (i > 0 ==> SameLinks(b[l[i - 1]], a[l[i - 1]].(tickNext := a[l[i]].tickNext))) &&
    (i + 1 < |l| ==> SameLinks(b[l[i + 1]], a[l[i + 1]].(tickPrev := a[l[i]].tickPrev))) &&
    forall u :: (0 <= u < |a| && u != l[i] &&
                 (i == 0 || u != l[i - 1]) && (i + 1 == |l| || u != l[i + 1]))
                ==> SameLinks(b[u], a[u])
  }

  /** Dropping position `i` with those edits leaves a well-linked list. */
  lemma UnlinkSpokeWF(a: seq<Tcb>, b: seq<Tcb>, l: seq<nat>, s: nat, w: nat, i: nat)
    requires ListWF(a, l, s, w) && i < |l|
    requires forall j :: 0 <= j < |l| ==> l[j] < |a|
    requires UnlinkedAround(a, b, l, i)
    ensures ListWF(b, l[..i] + l[i + 1..], s, w)
  {
    var l2 := l[..i] + l[i + 1..];
    forall j | 0 <= j < |l2|
      ensures LinkedAt(b, l2, s, w, j)
    {
      if j + 1 < i {
        UnlinkLinkedFar(a, b, l, s, w, i, j);
      } else if j > i {
        UnlinkLinkedLate(a, b, l, s, w, i, j);
      } else if j + 1 == i {
        UnlinkLinkedPrev(a, b, l, s, w, i);
      } else {
        UnlinkLinkedNext(a, b, l, s, w, i);
      }
    }
    assert forall j :: 0 <= j < |l2| ==> l2[j] == if j < i then l[j] else l[j + 1];
  }

  /** An entry before the removed one's predecessor keeps its links. */
  lemma UnlinkLinkedFar(a: seq<Tcb>, b: seq<Tcb>, l: seq<nat>, s: nat, w: nat, i: nat, j: nat)
    requires ListWF(a, l, s, w) && i < |l|
    requires forall j :: 0 <= j < |l| ==> l[j] < |a|
    requires UnlinkedAround(a, b, l, i)
    requires j + 1 < i
    ensures LinkedAt(b, l[..i] + l[i + 1..], s, w, j)
  {
    var l2 := l[..i] + l[i + 1..];
    assert l2[j] == l[j] && l2[j + 1] == l[j + 1];
    if j > 0 {
      assert l2[j - 1] == l[j - 1];
    }
    assert LinkedAt(a, l, s, w, j);
    assert SameLinks(b[l[j]], a[l[j]]);
  }

  /** An entry after the removed one's successor keeps its links. */
  lemma UnlinkLinkedLate(a: seq<Tcb>, b: seq<Tcb>, l: seq<nat>, s: nat, w: nat, i: nat, j: nat)
    requires ListWF(a, l, s, w) && i < |l|
    requires forall j :: 0 <= j < |l| ==> l[j] < |a|
    requires UnlinkedAround(a, b, l, i)
    requires i < j < |l| - 1
    ensures LinkedAt(b, l[..i] + l[i + 1..], s, w, j)
  {
    var l2 := l[..i] + l[i + 1..];
    assert l2[j] == l[j + 1] && l2[j - 1] == l[j];
    if j + 1 < |l2| {
      assert l2[j + 1] == l[j + 2];
    }
    assert LinkedAt(a, l, s, w, j + 1);
    assert SameLinks(b[l[j + 1]], a[l[j + 1]]);
  }

  /** The predecessor of the removed entry now points past it. */
  lemma UnlinkLinkedPrev(a: seq<Tcb>, b: seq<Tcb>, l: seq<nat>, s: nat, w: nat, i: nat)
    requires ListWF(a, l, s, w) && 0 < i < |l|
    requires forall j :: 0 <= j < |l| ==> l[j] < |a|
    requires UnlinkedAround(a, b, l, i)
    ensures LinkedAt(b, l[..i] + l[i + 1..], s, w, i - 1)
  {
    var l2 := l[..i] + l[i + 1..];
    assert l2[i - 1] == l[i - 1];
    if i > 1 {
      assert l2[i - 2] == l[i - 2];
    }
    if i < |l2| {
      assert l2[i] == l[i + 1];
    }
    assert LinkedAt(a, l, s, w, i - 1);
    assert LinkedAt(a, l, s, w, i);
  }

  /** The successor of the removed entry now points back past it. */
  lemma UnlinkLinkedNext(a: seq<Tcb>, b: seq<Tcb>, l: seq<nat>, s: nat, w: nat, i: nat)
    requires ListWF(a, l, s, w) && i + 1 < |l|
    requires forall j :: 0 <= j < |l| ==> l[j] < |a|
    requires UnlinkedAround(a, b, l, i)
    ensures LinkedAt(b, l[..i] + l[i + 1..], s, w, i)
  {
    var l2 := l[..i] + l[i + 1..];
    assert l2[i] == l[i + 1];
    if i > 0 {
      assert l2[i - 1] == l[i - 1];
    }
    if i + 1 < |l2| {
      assert l2[i + 1] == l[i + 2];
    }
    assert LinkedAt(a, l, s, w, i + 1);
    assert LinkedAt(a, l, s, w, i);
  }

  /** Putting task `t` in at position `p` of spoke `s` (the surgery of
      `OS_TickListInsert`) leaves a well-formed wheel whose list for `s` is
      the old one with `t` at that position. */
  lemma {:induction false} SpliceKeepsWF(
    spokes: seq<Spoke>, a: seq<Tcb>, lists: seq<seq<nat>>, s: nat, p: nat, t: nat,
    spokes2: seq<Spoke>, b: seq<Tcb>)
    requires WheelWF(spokes, a, lists)
    requires s < |lists| && p <= |lists[s]| && t < |a| && a[t].tickSpoke == None && |b| == |a|
    requires forall j :: 0 <= j < |lists[s]| ==> lists[s][j] < |a|
    requires b[t].tickSpoke == Some(s) && b[t].tickCtrMatch % |lists| == s
    requires b[t].tickPrev == (if p == 0 then None else Some(lists[s][p - 1]))
    requires b[t].tickNext == (if p == |lists[s]| then None else Some(lists[s][p]))
    requires p > 0 ==> SameLinks(b[lists[s][p - 1]], a[lists[s][p - 1]].(tickNext := Some(t)))
    requires p < |lists[s]| ==> SameLinks(b[lists[s][p]], a[lists[s][p]].(tickPrev := Some(t)))
    requires forall u :: (0 <= u < |a| && u != t &&
                          (p == 0 || u != lists[s][p - 1]) && (p == |lists[s]| || u != lists[s][p]))
                         ==> SameLinks(b[u], a[u])
    requires |spokes2| == |spokes|
    requires forall s' :: 0 <= s' < |spokes| && s' != s ==> spokes2[s'] == spokes[s']
    requires spokes2[s].nbrEntries == spokes[s].nbrEntries + 1
    requires spokes2[s].first == if p == 0 then Some(t) else spokes[s].first
    ensures WheelWF(spokes2, b, lists[s := lists[s][..p] + [t] + lists[s][p..]])
  {
    var w := |lists|;
    var l := lists[s];
    var l2 := l[..p] + [t] + l[p..];
    var lists2 := lists[s := l2];
    assert ListWF(a, l, s, w);
    assert t !in l by {
      if t in l { MemberIffSpoke(spokes, a, lists, t, s); }
    }
    SpliceSpokeWF(a, b, l, s, w, p, t);
    var touched := {t} + (if p > 0 then {l[p - 1]} else {}) + (if p < |l| then {l[p]} else {});
    forall u | u in touched ensures u < |a| && a[u].tickSpoke.Some? ==> a[u].tickSpoke == Some(s) {
      if u == t { }
      else if p > 0 && u == l[p - 1] { assert LinkedAt(a, l, s, w, p - 1); }
      else { assert LinkedAt(a, l, s, w, p); }
    }
    OtherSpokesKept(spokes, a, b, lists, s, touched);
    SpliceMembers(spokes, a, lists, s, p, t, b);
    assert SpokeHolds(spokes2[s], l2);
  }

  /** After the splice every task linked in `b` is in its spoke's list. */
  lemma {:induction false} SpliceMembers(
    spokes: seq<Spoke>, a: seq<Tcb>, lists: seq<seq<nat>>, s: nat, p: nat, t: nat, b: seq<Tcb>)
    requires WheelWF(spokes, a, lists)
    requires s < |lists| && p <= |lists[s]| && t < |a| && |b| == |a|
    requires forall j :: 0 <= j < |lists[s]| ==> lists[s][j] < |a|
    requires b[t].tickSpoke == Some(s)
    requires p > 0 ==> SameLinks(b[lists[s][p - 1]], a[lists[s][p - 1]].(tickNext := Some(t)))
    requires p < |lists[s]| ==> SameLinks(b[lists[s][p]], a[lists[s][p]].(tickPrev := Some(t)))
    requires forall u :: (0 <= u < |a| && u != t &&
                          (p == 0 || u != lists[s][p - 1]) && (p == |lists[s]| || u != lists[s][p]))
                         ==> SameLinks(b[u], a[u])
    ensures forall u :: 0 <= u < |b| && b[u].tickSpoke.Some? ==>
      b[u].tickSpoke.value < |lists| && u in lists[s := lists[s][..p] + [t] + lists[s][p..]][b[u].tickSpoke.value]
  {
    var w := |lists|;
    var l := lists[s];
    var l2 := l[..p] + [t] + l[p..];
    var lists2 := lists[s := l2];
    assert ListWF(a, l, s, w);
    if p > 0 { assert LinkedAt(a, l, s, w, p - 1); }
    if p < |l| { assert LinkedAt(a, l, s, w, p); }
    forall u | 0 <= u < |b| && b[u].tickSpoke.Some?
      ensures b[u].tickSpoke.value < w && u in lists2[b[u].tickSpoke.value]
    {
      if u == t {
        assert l2[p] == t;
      } else {
        assert a[u].tickSpoke == b[u].tickSpoke;
        var j := IndexOf(lists[a[u].tickSpoke.value], u);
        if a[u].tickSpoke.value == s {
          assert l2[if j < p then j else j + 1] == u;
        }
      }
    }
  }

  /** The entries of a spliced list: `t` at `p`, the old entries around it. */
  lemma SpliceIndex(l: seq<nat>, p: nat, t: nat)
    requires p <= |l|
    ensures var l2 := l[..p] + [t] + l[p..];
      |l2| == |l| + 1 &&
      forall j :: 0 <= j < |l2| ==> l2[j] == if j < p then l[j] else if j == p then t else l[j - 1]
  {
  }

  /** A position of the spliced list before `t` is linked. */
  lemma SpliceLinkedBefore(a: seq<Tcb>, b: seq<Tcb>, l: seq<nat>, s: nat, w: nat, p: nat, t: nat, j: nat)
    requires ListWF(a, l, s, w) && p <= |l| && t < |a| && t !in l && |b| == |a| && 0 < w
    requires forall j :: 0 <= j < |l| ==> l[j] < |a|
    requires b[t].tickSpoke == Some(s) && b[t].tickCtrMatch % w == s
    requires b[t].tickPrev == (if p == 0 then None else Some(l[p - 1]))
    requires b[t].tickNext == (if p == |l| then None else Some(l[p]))
    requires p > 0 ==> SameLinks(b[l[p - 1]], a[l[p - 1]].(tickNext := Some(t)))
    requires p < |l| ==> SameLinks(b[l[p]], a[l[p]].(tickPrev := Some(t)))
    requires forall u :: (0 <= u < |a| && u != t &&
                          (p == 0 || u != l[p - 1]) && (p == |l| || u != l[p]))
                         ==> SameLinks(b[u], a[u])
    requires j < p
    ensures LinkedAt(b, l[..p] + [t] + l[p..], s, w, j)
  {
    SpliceIndex(l, p, t);
    assert LinkedAt(a, l, s, w, j);
    if j > 0 { assert LinkedAt(a, l, s, w, j - 1); }
    if j + 1 < |l| { assert LinkedAt(a, l, s, w, j + 1); }
  }

  /** The spliced task itself is linked. */
  lemma SpliceLinkedNew(a: seq<Tcb>, b: seq<Tcb>, l: seq<nat>, s: nat, w: nat, p: nat, t: nat)
    requires ListWF(a, l, s, w) && p <= |l| && t < |a| && t !in l && |b| == |a| && 0 < w
    requires forall j :: 0 <= j < |l| ==> l[j] < |a|
    requires b[t].tickSpoke == Some(s) && b[t].tickCtrMatch % w == s
    requires b[t].tickPrev == (if p == 0 then None else Some(l[p - 1]))
    requires b[t].tickNext == (if p == |l| then None else Some(l[p]))
    requires p > 0 ==> SameLinks(b[l[p - 1]], a[l[p - 1]].(tickNext := Some(t)))
    requires p < |l| ==> SameLinks(b[l[p]], a[l[p]].(tickPrev := Some(t)))
    requires forall u :: (0 <= u < |a| && u != t &&
                          (p == 0 || u != l[p - 1]) && (p == |l| || u != l[p]))
                         ==> SameLinks(b[u], a[u])
    ensures LinkedAt(b, l[..p] + [t] + l[p..], s, w, p)
  {
    SpliceIndex(l, p, t);
    if p > 0 { assert LinkedAt(a, l, s, w, p - 1); }
    if p < |l| { assert LinkedAt(a, l, s, w, p); }
  }

  /** A position of the spliced list after `t` is linked. */
  lemma SpliceLinkedAfter(a: seq<Tcb>, b: seq<Tcb>, l: seq<nat>, s: nat, w: nat, p: nat, t: nat, j: nat)
    requires ListWF(a, l, s, w) && p <= |l| && t < |a| && t !in l && |b| == |a| && 0 < w
    requires forall j :: 0 <= j < |l| ==> l[j] < |a|
    requires b[t].tickSpoke == Some(s) && b[t].tickCtrMatch % w == s
    requires b[t].tickPrev == (if p == 0 then None else Some(l[p - 1]))
    requires b[t].tickNext == (if p == |l| then None else Some(l[p]))
    requires p > 0 ==> SameLinks(b[l[p - 1]], a[l[p - 1]].(tickNext := Some(t)))
    requires p < |l| ==> SameLinks(b[l[p]], a[l[p]].(tickPrev := Some(t)))
    requires forall u :: (0 <= u < |a| && u != t &&
                          (p == 0 || u != l[p - 1]) && (p == |l| || u != l[p]))
                         ==> SameLinks(b[u], a[u])
    requires p < j <= |l|
    ensures LinkedAt(b, l[..p] + [t] + l[p..], s, w, j)
  {
    SpliceIndex(l, p, t);
    var k := j - 1;
    assert LinkedAt(a, l, s, w, k);
    if k > 0 { assert LinkedAt(a, l, s, w, k - 1); }
    if k + 1 < |l| { assert LinkedAt(a, l, s, w, k + 1); }
  }

  lemma SpliceSpokeWF(a: seq<Tcb>, b: seq<Tcb>, l: seq<nat>, s: nat, w: nat, p: nat, t: nat)
    requires ListWF(a, l, s, w) && p <= |l| && t < |a| && t !in l && |b| == |a| && 0 < w
    requires forall j :: 0 <= j < |l| ==> l[j] < |a|
    requires b[t].tickSpoke == Some(s) && b[t].tickCtrMatch % w == s
    requires b[t].tickPrev == (if p == 0 then None else Some(l[p - 1]))
    requires b[t].tickNext == (if p == |l| then None else Some(l[p]))
    requires p > 0 ==> SameLinks(b[l[p - 1]], a[l[p - 1]].(tickNext := Some(t)))
    requires p < |l| ==> SameLinks(b[l[p]], a[l[p]].(tickPrev := Some(t)))
    requires forall u :: (0 <= u < |a| && u != t &&
                          (p == 0 || u != l[p - 1]) && (p == |l| || u != l[p]))
                         ==> SameLinks(b[u], a[u])
    ensures ListWF(b, l[..p] + [t] + l[p..], s, w)
  {
    var l2 := l[..p] + [t] + l[p..];
    SpliceIndex(l, p, t);
    forall j | 0 <= j < |l2|
      ensures LinkedAt(b, l2, s, w, j)
    {
      if j < p { SpliceLinkedBefore(a, b, l, s, w, p, t, j); }
      else if j == p { SpliceLinkedNew(a, b, l, s, w, p, t); }
      else { SpliceLinkedAfter(a, b, l, s, w, p, t, j); }
    }
  }

  // ---------------------------------------------------------------------
  // Order within a spoke

  /** Ticks left until task `u`'s match, counted from `now`. */
  function Rem(tcbs: seq<Tcb>, u: nat, now: nat, m: nat): nat
    requires 0 < m
  {
    if u < |tcbs| then Dist(tcbs[u].tickCtrMatch, now, m) else 0
  }

  /** The remaining ticks of a list's entries, head first. */
  function Rems(l: seq<nat>, tcbs: seq<Tcb>, now: nat, m: nat): (r: seq<nat>)
    requires 0 < m
    ensures |r| == |l|
  {
    seq(|l|, i requires 0 <= i < |l| => Rem(tcbs, l[i], now, m))
  }

  ghost predicate NonDecreasing(a: seq<nat>) {
    forall i, j :: 0 <= i < j < |a| ==> a[i] <= a[j]
  }

  /** Where the splice walk of `OS_TickListInsert` stops: at the first entry
      whose remaining is not below the new task's, or past the tail. */
  function FirstAtLeast(a: seq<nat>, r: nat): (p: nat)
    ensures p <= |a|
    ensures forall i :: 0 <= i < p ==> a[i] < r
    ensures p < |a| ==> a[p] >= r
  {
    if a == [] then 0
    else if a[0] >= r then 0
    else 1 + FirstAtLeast(a[1..], r)
  }

  /** Splicing at that position keeps a non-decreasing list non-decreasing. */
  lemma {:induction false} SpliceSorted(a: seq<nat>, r: nat)
    requires NonDecreasing(a)
    ensures NonDecreasing(a[..FirstAtLeast(a, r)] + [r] + a[FirstAtLeast(a, r)..])
  {
    var p := FirstAtLeast(a, r);
    var b := a[..p] + [r] + a[p..];
    assert forall j :: 0 <= j < |b| ==> b[j] == if j < p then a[j] else if j == p then r else a[j - 1];
  }

  /** Ties go newest first: a second entry with the same remaining lands in
      front of the first one. */
  lemma {:induction false} TieGoesFirst(a: seq<nat>, r: nat)
    ensures FirstAtLeast(a[..FirstAtLeast(a, r)] + [r] + a[FirstAtLeast(a, r)..], r) == FirstAtLeast(a, r)
  {
    var p := FirstAtLeast(a, r);
    var b := a[..p] + [r] + a[p..];
    var q := FirstAtLeast(b, r);
    assert b[p] == r;
    assert forall j :: 0 <= j < p ==> b[j] == a[j];
  }

  // ---------------------------------------------------------------------
  // The sweep of `OS_TickListUpdate` over one spoke

  /** The walk stops at a timed wait that is not yet due. */
  predicate Stops(tcbs: seq<Tcb>, u: nat, now: nat) {
    u < |tcbs| && IsTimed(tcbs[u].taskState) && tcbs[u].tickCtrMatch != now
  }

  /** The walk expires a timed wait that is due. */
  predicate DueAt(tcbs: seq<Tcb>, u: nat, now: nat) {
    u < |tcbs| && IsDue(tcbs[u], now)
  }

  /** Index of the first entry the walk stops at, or the list length. */
  function StopIndex(l: seq<nat>, tcbs: seq<Tcb>, now: nat): (k: nat)
    ensures k <= |l|
    ensures forall i :: 0 <= i < k ==> !Stops(tcbs, l[i], now)
    ensures k < |l| ==> Stops(tcbs, l[k], now)
  {
    if l == [] then 0
    else if Stops(tcbs, l[0], now) then 0
    else 1 + StopIndex(l[1..], tcbs, now)
  }

  /** Number of entries the walk visits: up to and including the stopping one. */
  function WalkLength(l: seq<nat>, tcbs: seq<Tcb>, now: nat): nat
  {
    var k := StopIndex(l, tcbs, now);
    if k < |l| then k + 1 else |l|
  }

  /** The visited entries that stay linked: all but the due ones. */
  function Survivors(xs: seq<nat>, tcbs: seq<Tcb>, now: nat): seq<nat>
  {
    if xs == [] then []
    else
      var last := xs[|xs| - 1];
      Survivors(xs[..|xs| - 1], tcbs, now) + (if DueAt(tcbs, last, now) then [] else [last])
  }

  /** The foreign calls made while visiting `xs`, in order. */
  function WalkEvents(xs: seq<nat>, tcbs: seq<Tcb>, now: nat): seq<Event>
  {
    if xs == [] then []
    else
      var last := xs[|xs| - 1];
      WalkEvents(xs[..|xs| - 1], tcbs, now) +
        (if DueAt(tcbs, last, now) then ExpiryEvents(last, tcbs[last].taskState) else [])
  }

  /** Visiting one more entry extends the survivors and the calls made by
      what that entry contributes. */
  lemma WalkExtends(l: seq<nat>, k: nat, tcbs: seq<Tcb>, now: nat)
    requires k < |l|
    ensures Survivors(l[..k + 1], tcbs, now) ==
      Survivors(l[..k], tcbs, now) + (if DueAt(tcbs, l[k], now) then [] else [l[k]])
    ensures WalkEvents(l[..k + 1], tcbs, now) ==
      WalkEvents(l[..k], tcbs, now) +
        (if DueAt(tcbs, l[k], now) then ExpiryEvents(l[k], tcbs[l[k]].taskState) else [])
  {
    assert l[..k + 1][..k] == l[..k];
  }

  /** The calls made for a due entry are among the calls of any walk that
      visits it. */
  lemma {:induction false} WalkEventsHas(xs: seq<nat>, tcbs: seq<Tcb>, now: nat, u: nat)
    requires u in xs && DueAt(tcbs, u, now)
    ensures forall e :: e in ExpiryEvents(u, tcbs[u].taskState) ==> e in WalkEvents(xs, tcbs, now)
  {
    var last := xs[|xs| - 1];
    if u != last {
      var i :| 0 <= i < |xs| && xs[i] == u;
      assert xs[..|xs| - 1][i] == u;
      WalkEventsHas(xs[..|xs| - 1], tcbs, now, u);
    }
  }

  /** Survivors are a subsequence of what was visited. */
  lemma {:induction false} SurvivorsWithin(xs: seq<nat>, tcbs: seq<Tcb>, now: nat)
    ensures forall u :: u in Survivors(xs, tcbs, now) ==> u in xs && !DueAt(tcbs, u, now)
  {
    if xs != [] {
      SurvivorsWithin(xs[..|xs| - 1], tcbs, now);
    }
  }

  /** When every visited entry is a timed wait, the sweep leaves exactly the
      list from the stopping entry on: everything before it was due. */
  lemma {:induction false} SweepLeavesSuffix(l: seq<nat>, tcbs: seq<Tcb>, now: nat)
    requires forall i :: 0 <= i < |l| ==> l[i] < |tcbs| && IsTimed(tcbs[l[i]].taskState)
    ensures Survivors(l[..WalkLength(l, tcbs, now)], tcbs, now) + l[WalkLength(l, tcbs, now)..] ==
            l[StopIndex(l, tcbs, now)..]
  {
    var j := StopIndex(l, tcbs, now);
    AllDueSwept(l, tcbs, now, j);
    if j < |l| {
      assert l[..j + 1][..j] == l[..j];
      assert l[j..] == [l[j]] + l[j + 1..];
    }
  }

  lemma {:induction false} AllDueSwept(l: seq<nat>, tcbs: seq<Tcb>, now: nat, k: nat)
    requires forall i :: 0 <= i < |l| ==> l[i] < |tcbs| && IsTimed(tcbs[l[i]].taskState)
    requires k <= StopIndex(l, tcbs, now)
    ensures Survivors(l[..k], tcbs, now) == []
  {
    if k > 0 {
      AllDueSwept(l, tcbs, now, k - 1);
      assert l[..k][..k - 1] == l[..k - 1];
      assert !Stops(tcbs, l[k - 1], now);
    }
  }

  /** One tick later every entry that was not due is one tick closer, so a
      spoke keeps its order and nothing in it but a match on the new tick is
      due. */
  lemma {:induction false} RemsAfterTick(l: seq<nat>, tcbs: seq<Tcb>, now: nat, m: nat)
    requires 0 < m && now < m
    requires forall i :: 0 <= i < |l| ==> l[i] < |tcbs| && tcbs[l[i]].tickCtrMatch < m
    requires 0 !in Rems(l, tcbs, now, m)
    ensures forall i :: 0 <= i < |l| ==>
      Rems(l, tcbs, Wrap(now + 1, m), m)[i] == Rems(l, tcbs, now, m)[i] - 1
    ensures NonDecreasing(Rems(l, tcbs, now, m)) ==> NonDecreasing(Rems(l, tcbs, Wrap(now + 1, m), m))
  {
    forall i | 0 <= i < |l|
      ensures Rems(l, tcbs, Wrap(now + 1, m), m)[i] == Rems(l, tcbs, now, m)[i] - 1
    {
      assert Rems(l, tcbs, now, m)[i] != 0;
      DistZero(tcbs[l[i]].tickCtrMatch, now, m);
      DistAfterTick(tcbs[l[i]].tickCtrMatch, now, m);
    }
    if NonDecreasing(Rems(l, tcbs, now, m)) {
      var a, b := Rems(l, tcbs, now, m), Rems(l, tcbs, Wrap(now + 1, m), m);
      forall i, j | 0 <= i < j < |l| ensures b[i] <= b[j] {
        assert a[i] <= a[j];
      }
    }
  }
}
