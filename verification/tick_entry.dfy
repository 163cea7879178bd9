/** The records the tick list works on: the tick fields of a task control
    block (`OS_TCB`), a spoke of the wheel (`OS_TICK_SPOKE`), and the pure
    arithmetic that decides when a new wait falls due. */
module TickEntry {
  import opened Wrappers
  import opened TickMath

  /** `OS_TASK_STATE_*`. `Del` stands for every code outside the eight states
      the tick list knows about (the kernel's deleted-task marker). */
  datatype TaskState =
    | Rdy | Dly | Pend | PendTimeout
    | Suspended | DlySuspended | PendSuspended | PendTimeoutSuspended
    | Del

  /** `OS_STATUS_PEND_*`: how the last pend ended. */
  datatype PendStatus = PendOk | PendAbort | PendDel | PendTimedOut

  /** `OS_TASK_PEND_ON_*`: the kind of object a task pends on. */
  datatype PendOn = Nothing | Flag | TaskQ | Multi | Mutex | Queue | Sem | TaskSem

  /** The fields of a task control block that the tick code reads or writes.
      Task ids index the arena of control blocks; `tickSpoke`, `tickNext` and
      `tickPrev` are `TickSpokePtr`, `TickNextPtr` and `TickPrevPtr`, with
      `None` for the null pointer. `msgPtr` is the address of the message
      received, `None` for null. */
  datatype Tcb = Tcb(
    taskState: TaskState,
    tickCtrMatch: nat,
    tickRemain: nat,
    tickCtrPrev: nat,
    tickSpoke: Option<nat>,
    tickNext: Option<nat>,
    tickPrev: Option<nat>,
    msgPtr: Option<nat>,
    msgSize: nat,
    ts: nat,
    pendStatus: PendStatus,
    pendOn: PendOn)

  /** One slot of `OSCfg_TickWheel[]`. */
  datatype Spoke = Spoke(first: Option<nat>, nbrEntries: nat, nbrEntriesMax: nat)

  const EmptySpoke := Spoke(None, 0, 0)

  /** The calls the tick code makes into parts of the kernel outside this
      model, recorded in order: `OS_PendListRemove` and the ready-list half
      of `OS_TaskRdy`. */
  datatype Event = PendRemoved(task: nat) | MadeReady(task: nat)

  /** `OS_OPT_TIME_*`: how `OS_TickListInsert` reads its `time` argument. */
  datatype TimeOpt = OptDly | OptTimeout | OptPeriodic | OptMatch

  /** The three tick fields a successful insertion computes. */
  datatype Timing = Timing(tickCtrMatch: nat, tickRemain: nat, tickCtrPrev: nat)

  /** The four states in which a linked task waits on the tick. */
  predicate IsTimed(st: TaskState) {
    st == Dly || st == PendTimeout || st == DlySuspended || st == PendTimeoutSuspended
  }

  /** The match/remaining computation of `OS_TickListInsert`, from the
      option, the caller's `time`, the current `OSTickCtr` and the task's
      `TickCtrPrev`. `None` is the `OS_ERR_TIME_ZERO_DLY` outcome. */
  function Schedule(opt: TimeOpt, time: nat, now: nat, prev: nat, cfg: Config): (r: Option<Timing>)
    requires cfg.Valid() && time < cfg.tickMod && now < cfg.tickMod && prev < cfg.tickMod
    // Refused exactly for a zero relative time, or a match too far ahead (or already past).
    ensures r.None? <==>
      if opt == OptMatch then Wrap(time - now - 1, cfg.tickMod) > cfg.thRdy else time == 0
    // The cached remaining is the true distance to the match, and never zero.
    ensures r.Some? ==>
      r.value.tickCtrMatch < cfg.tickMod &&
      r.value.tickRemain == Dist(r.value.tickCtrMatch, now, cfg.tickMod) &&
      1 <= r.value.tickRemain
    ensures r.Some? && opt == OptMatch ==>
      r.value.tickCtrMatch == time && r.value.tickRemain <= cfg.thRdy + 1
    ensures r.Some? && (opt == OptDly || opt == OptTimeout) ==>
      r.value.tickRemain == time && r.value.tickCtrMatch == Wrap(now + time, cfg.tickMod)
    ensures r.Some? && opt == OptPeriodic ==>
      r.value.tickRemain <= time && r.value.tickCtrPrev == r.value.tickCtrMatch
    ensures r.Some? && opt != OptPeriodic ==> r.value.tickCtrPrev == prev
  {
    var m := cfg.tickMod;
    if opt == OptMatch then
      var delta := Wrap(time - now - 1, m);
      if delta > cfg.thRdy then None
      else
        DistPredecessor(time, now, m);
        Some(Timing(time, Wrap(delta + 1, m), prev))
    else if time > 0 then
      if opt == OptPeriodic then
        var next := Wrap(prev + time, m);
        var delta := Wrap(next - now - 1, m);
        var target := if delta < time then next else Wrap(now + time, m);
        if delta < time then
          DistPredecessor(next, now, m);
          Some(Timing(target, Dist(target, now, m), target))
        else
          DistAfterAdd(now, time, m);
          Some(Timing(target, Dist(target, now, m), target))
      else
        DistAfterAdd(now, time, m);
        Some(Timing(Wrap(now + time, m), time, prev))
    else
      None
  }

  /** Periodic re-arming does not drift: while less than one period has gone
      by since the previous match, the next match is exactly one period after
      it; once a full period has been missed, the wait is re-based on now. */
  lemma {:induction false} PeriodicAnchor(time: nat, now: nat, prev: nat, cfg: Config)
    requires cfg.Valid() && 0 < time < cfg.tickMod && now < cfg.tickMod && prev < cfg.tickMod
    ensures Schedule(OptPeriodic, time, now, prev, cfg).Some?
    ensures Dist(now, prev, cfg.tickMod) < time ==>
      Schedule(OptPeriodic, time, now, prev, cfg).value.tickCtrMatch == Wrap(prev + time, cfg.tickMod)
    ensures Dist(now, prev, cfg.tickMod) >= time ==>
      Schedule(OptPeriodic, time, now, prev, cfg).value.tickCtrMatch == Wrap(now + time, cfg.tickMod)
  {
    var m := cfg.tickMod;
    var next := Wrap(prev + time, m);
    var e := Dist(now, prev, m);
    WrapNear(prev + time, m);
    WrapNear(now - prev, m);
    WrapNear(next - now - 1, m);
    // next - now - 1 and time - 1 - e differ by a multiple of the modulus
    assert Wrap(next - now - 1, m) == Wrap(time - 1 - e, m) by {
      WrapNear(time - 1 - e, m);
    }
    WrapNear(time - 1 - e, m);
  }

  /** A relative delay of `d` ticks armed at tick `t0` falls due on the
      `d`-th tick after `t0` and on no earlier tick. */
  lemma {:induction false} DelayDueExactly(t0: nat, d: nat, j: nat, m: nat)
    requires 0 < m && t0 < m && 0 < d < m && 0 < j <= d
    ensures Wrap(t0 + j, m) == Wrap(t0 + d, m) <==> j == d
  {
    WrapNear(t0 + j, m);
    WrapNear(t0 + d, m);
  }

  /** A task whose wait is over is handed on or the walk stops at it. */
  predicate IsDue(x: Tcb, now: nat) {
    IsTimed(x.taskState) && x.tickCtrMatch == now
  }

  /** The tick fields `OS_TickListRemove` leaves behind on the removed task. */
  function Detached(x: Tcb): (r: Tcb)
    ensures r.tickSpoke == None && r.tickNext == None && r.tickPrev == None
    ensures r.tickCtrMatch == 0 && r.tickRemain == 0
    ensures r.taskState == x.taskState && r.tickCtrPrev == x.tickCtrPrev
  {
    x.(tickRemain := 0, tickNext := None, tickPrev := None, tickSpoke := None, tickCtrMatch := 0)
  }

  /** A task whose pend timed out: no message, the timeout stamp, no object. */
  function TimedOut(x: Tcb, ts: nat): Tcb {
    x.(msgPtr := None, msgSize := 0, ts := ts, pendStatus := PendTimedOut, pendOn := Nothing)
  }

  /** The control block of a task that `OS_TickListUpdate` finds due:
      delays end in Ready (or Suspended), timed pends additionally time out,
      and in every case the task leaves the wheel. */
  function Expired(x: Tcb, ts: nat): (r: Tcb)
    requires IsTimed(x.taskState)
    ensures r.tickSpoke == None && r.tickCtrMatch == 0 && r.tickRemain == 0
    ensures r.taskState == (if x.taskState == Dly || x.taskState == PendTimeout then Rdy else Suspended)
    ensures x.taskState == PendTimeout || x.taskState == PendTimeoutSuspended ==>
      r.pendStatus == PendTimedOut && r.pendOn == Nothing && r.msgPtr == None && r.msgSize == 0 && r.ts == ts
    ensures x.taskState == Dly || x.taskState == DlySuspended ==>
      r.pendStatus == x.pendStatus && r.pendOn == x.pendOn && r.msgPtr == x.msgPtr && r.ts == x.ts
  {
    match x.taskState
    case Dly => Detached(x.(taskState := Rdy))
    case PendTimeout => Detached(TimedOut(x, ts).(taskState := Rdy))
    case DlySuspended => Detached(x.(taskState := Suspended))
    case PendTimeoutSuspended => Detached(TimedOut(x, ts).(taskState := Suspended))
  }

  /** What visiting one entry of the swept spoke does to its control block:
      states that are not timed waits are skipped; a timed wait gets its
      remaining refreshed and, if due, expires. */
  function Visited(x: Tcb, now: nat, m: nat, ts: nat): Tcb
    requires 0 < m
  {
    if !IsTimed(x.taskState) then x
    else if x.tickCtrMatch == now then Expired(x, ts)
    else x.(tickRemain := Dist(x.tickCtrMatch, now, m))
  }

  /** The foreign calls made for a task found due. */
  function ExpiryEvents(u: nat, st: TaskState): seq<Event> {
    match st
    case Dly => [MadeReady(u)]
    case PendTimeout => [PendRemoved(u), MadeReady(u)]
    case PendTimeoutSuspended => [PendRemoved(u)]
    case _ => []
  }

  /** `TickRemain` refreshed against the current tick, as the walks do. */
  function Refreshed(x: Tcb, now: nat, m: nat): Tcb
    requires 0 < m
  {
    x.(tickRemain := Dist(x.tickCtrMatch, now, m))
  }

  /** The link fields the wheel's shape depends on are equal. */
  predicate SameLinks(x: Tcb, y: Tcb) {
    x.tickSpoke == y.tickSpoke && x.tickNext == y.tickNext &&
    x.tickPrev == y.tickPrev && x.tickCtrMatch == y.tickCtrMatch
  }

  /** Equal in every field but the two list links. */
  predicate SameButLinks(x: Tcb, y: Tcb) {
    x.(tickNext := None, tickPrev := None) == y.(tickNext := None, tickPrev := None)
  }
}
