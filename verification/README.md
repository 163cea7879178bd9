# The uC/OS-III tick wheel in Dafny

This project models the tick list of the uC/OS-III kernel: the hashed
"tick wheel" in `uCOS-III/Source/os_tick.c` that holds every task waiting on
the clock (a delay or a pend with a timeout), and the tick task that drives it.

The wheel is a fixed array of spokes (`OSCfg_TickWheel[]`). A waiting task is
placed on spoke `TickCtrMatch % OSCfg_TickWheelSize`. Within a spoke, the
tasks form a doubly linked list in ascending order of ticks remaining. On
every tick, `OS_TickListUpdate` advances `OSTickCtr` and walks the one spoke
the new count hashes to. Each task it meets whose match is the new count is
released. The walk stops at the first timed wait that is not yet due.

How the model is built:

- `TickMath` (`tick_math.dfy`) treats `OS_TICK` as unsigned arithmetic
  modulo `2^N`. The width is a configuration parameter, and every C `+`/`-`
  on ticks becomes an explicit `Wrap`.
- `TickEntry` (`tick_entry.dfy`) holds the records:
  - the tick fields of `OS_TCB` and the spoke record, as datatypes;
  - `Schedule`, the pure match/remaining computation of `OS_TickListInsert`;
  - `Expired`/`Visited`, what `OS_TickListUpdate` does to one control block.
- `SpokeList` (`spoke_list.dfy`) gives each spoke an abstract list of task
  ids:
  - `WheelWF` ties the list to the `FirstPtr`/`NbrEntries` fields and to
    the `TickNextPtr`/`TickPrevPtr`/`TickSpokePtr` links;
  - `Rems`, `FirstAtLeast` and `StopIndex` say where an insertion lands
    and where a sweep stops.
- `WheelOrder` (`wheel_order.dfy`) proves that insertion, removal and a
  whole tick keep every spoke in ascending order of remaining ticks. It also
  proves that they leave no linked task due at the current count. For a
  tick, this holds when, before it, every linked task was a timed wait and
  the wheel was ascending with nothing due. A task in another state left on
  a spoke is skipped by the walk (see the `Update` line under "Left out").
- `OsTick` (`os_tick.dfy`) is the imperative model:
  - the class `TickList` holds the kernel globals (`OSTickCtr`,
    `OSTickTaskTimeMax`, the wheel as an `array<Spoke>`) and the task
    control blocks;
  - its methods follow the C functions branch by branch, each proved
    against the predicates `InsertedAt`, `RemovedFrom` and `SweptTo`.
    These predicates describe the new state in terms of the old one;
  - ghost fields keep the abstract spoke lists and a log of the calls made
    to `OS_PendListRemove` and the ready list.

Each tick of a sweep is proved against `SweptTo`. The tasks visited before
the walk stops are exactly those the C loop visits. Each visited task ends
as `Visited` leaves it, except for its links while it stays on the wheel.
The due ones leave the list and the others stay in front of the unvisited
rest. Every task that is off the wheel afterwards is exactly as the sweep
left it: `Visited` if the walk reached it, unchanged otherwise. The links of
the tasks still on the wheel are those of the new spoke lists. The foreign
calls are recorded in the C order.

On top of that, `DelayUntilReady` follows a delay of `d` ticks from
`Insert` through successive updates. The task is made ready on the `d`-th
update and not before.

## Model

| member | source | states |
|---|---|---|
| TickMath.Wrap | uCOS-III/Source/os_tick.c:427 | the result of unsigned tick arithmetic lies below the modulus and equals the mathematical value when that is in range |
| TickMath.WrapStep | uCOS-III/Source/os_tick.c:427 | one increment of a counter that has advanced `j` ticks from `t0` leaves it `j + 1` ticks from `t0`, modulo `2^N` |
| TickMath.DistZero | uCOS-III/Source/os_tick.c:443-445 | the wrapped difference of two ticks is zero exactly when they are equal, so a refreshed `TickRemain` is zero exactly at the match |
| TickMath.DistAfterAdd | uCOS-III/Source/os_tick.c:257-258 | a match set `d` ticks after the counter lies exactly `d` ticks away, so the relative-delay remaining equals `time` |
| TickMath.DistAfterTick | uCOS-III/Source/os_tick.c:427 | after one increment of the counter, every match that was not due is one tick closer |
| TickMath.DistPredecessor | uCOS-III/Source/os_tick.c:233-242 | `tick_delta + 1u` is the true distance to the match whenever it does not overflow |
| TickEntry.Schedule | uCOS-III/Source/os_tick.c:232-267 | a wait is refused exactly for a zero relative time or an absolute match beyond `OS_TICK_TH_RDY`; otherwise the remaining is the true distance to the match, at least 1, equal to `time` for delays and timeouts, within the horizon for absolute matches, and the periodic anchor moves to the new match |
| TickEntry.PeriodicAnchor | uCOS-III/Source/os_tick.c:245-254 | a periodic wait whose last match is less than one period ago is due exactly one period after it (no drift); after a full missed period it is re-based on the current count |
| TickEntry.DelayDueExactly | uCOS-III/Source/os_tick.c:257 | a relative delay of `d` ticks matches on the `d`-th following tick and on no earlier one |
| TickEntry.Detached | uCOS-III/Source/os_tick.c:345-363 | a removed task has no spoke, no links, zero remaining and zero match, and keeps its state and periodic anchor |
| TickEntry.Expired | uCOS-III/Source/os_tick.c:442-500 | an expired delay or timed pend leaves the wheel and becomes ready (suspended if it was suspended); a timed-out pend also loses its message, is stamped and records a timeout on nothing; a delay keeps its pend fields |
| SpokeList.MemberIffSpoke | uCOS-III/Source/os_tick.c:313 | a task is in a spoke's list exactly when its `TickSpokePtr` names that spoke |
| SpokeList.UnlinkKeepsWF | uCOS-III/Source/os_tick.c:343-364 | joining the neighbours around a removed task, with the head and count adjusted, leaves every spoke a well-formed list without that task |
| SpokeList.SpliceKeepsWF | uCOS-III/Source/os_tick.c:273-313 | linking a task between two neighbours, with the head and count adjusted, leaves every spoke a well-formed list with the task at that position |
| SpokeList.FirstAtLeast | uCOS-III/Source/os_tick.c:280-306 | the insertion point is after every entry with fewer ticks remaining and in front of the first entry with at least as many |
| SpokeList.SpliceSorted | uCOS-III/Source/os_tick.c:283-306 | inserting at that point keeps an ascending list ascending |
| SpokeList.TieGoesFirst | uCOS-III/Source/os_tick.c:283 | because the comparison is strict, a new entry goes in front of the entries it ties with |
| SpokeList.StopIndex | uCOS-III/Source/os_tick.c:432-509 | the sweep passes every entry that is not a timed wait short of its match and stops at the first one that is |
| SpokeList.SurvivorsWithin | uCOS-III/Source/os_tick.c:435-504 | the entries a sweep keeps linked are entries of the spoke that were not due |
| SpokeList.WalkEventsHas | uCOS-III/Source/os_tick.c:445-500 | every ready-list and wait-list call owed by a due entry the walk passes appears in the walk's log |
| SpokeList.SweepLeavesSuffix | uCOS-III/Source/os_tick.c:432-509 | when every entry is a timed wait, a sweep leaves exactly the suffix that starts where the walk stopped |
| SpokeList.AllDueSwept | uCOS-III/Source/os_tick.c:445-447 | when every entry is a timed wait, every entry the walk passes before stopping is due and taken off the list |
| SpokeList.RemsAfterTick | uCOS-III/Source/os_tick.c:427 | when no entry is due, one tick lowers every remaining by exactly one and keeps an ascending spoke ascending |
| WheelOrder.OrderAfterUnlink | uCOS-III/Source/os_tick.c:343-364 | removing an entry keeps every spoke ascending and keeps the wheel free of due entries |
| WheelOrder.OrderIgnoresUnlinked | uCOS-III/Source/os_tick.c:344 | changing a task that is on no spoke does not disturb the order of any spoke |
| WheelOrder.OrderAfterSplice | uCOS-III/Source/os_tick.c:268-313 | inserting at the insertion point keeps every spoke ascending, and keeps the wheel free of due entries when the new wait is not due |
| WheelOrder.DueOnlyInSweptSpoke | uCOS-III/Source/os_tick.c:270 | a linked task whose match is the current count sits on the spoke that count hashes to, the one the sweep walks |
| WheelOrder.StopSuffixNotDue | uCOS-III/Source/os_tick.c:445-449 | in an ascending spoke, the entries before the stop are exactly the due ones, and the rest stays ascending with nothing due |
| WheelOrder.SweptSpokeOrder | uCOS-III/Source/os_tick.c:430-509 | after the sweep, the part of the swept spoke that stays linked is ascending and not due |
| WheelOrder.OtherSpokeOrder | uCOS-III/Source/os_tick.c:427-429 | the spokes the tick does not walk stay ascending and get no due entry |
| WheelOrder.SweepTakesDue | uCOS-III/Source/os_tick.c:445-447 | after the sweep, no task whose match is the new count is still on the wheel |
| WheelOrder.OrderAfterSweep | uCOS-III/Source/os_tick.c:413-515 | a whole tick keeps every spoke ascending, leaves no due entry and only timed waits linked, and releases every task whose match is the new count |
| OsTick.RemovalKeepsOrder | uCOS-III/Source/os_tick.c:335-366 | removal keeps every spoke ascending, keeps the wheel free of due entries, and keeps only timed waits linked |
| OsTick.SpliceWalk | uCOS-III/Source/os_tick.c:279-307 | the splice loop refreshes exactly the entries it passes and links the task at the insertion point, between the right neighbours, reporting whether it became the head |
| OsTick.TickTaskCfgErr | uCOS-III/Source/os_tick.c:119-132 | the tick task's configuration is refused for a null stack base, else for a stack below the minimum, else for a priority at or above the idle task's, and accepted otherwise |
| OsTick.UnlinkEffect | uCOS-III/Source/os_tick.c:345-364 | the unlink surgery is a removal in the sense of `RemovedFrom` and keeps the wheel well formed and all tick values in range |
| OsTick.SpliceEffect | uCOS-III/Source/os_tick.c:268-313 | the splice keeps the wheel well formed, lands at the insertion point computed before any entry was refreshed, and keeps the order |
| OsTick.SpliceKeepsTimed | uCOS-III/Source/os_tick.c:268-313 | a splice changes no other task's state or spoke, so only timed waits stay linked |
| OsTick.InsertRecord | uCOS-III/Source/os_tick.c:270-313 | the state after the splice is the one `InsertedAt` describes, with every tick value in range |
| OsTick.InsertEffect | uCOS-III/Source/os_tick.c:218-315 | a successful insertion keeps the wheel well formed, is the one `InsertedAt` describes, and keeps every spoke ascending and free of due entries |
| OsTick.SweepStart | uCOS-III/Source/os_tick.c:430-431 | before the first visit the sweep has changed nothing |
| OsTick.SweepKeepsOrder | uCOS-III/Source/os_tick.c:425-515 | a completed sweep keeps the wheel ascending, free of due entries and holding only timed waits; every task that was due at the new count was visited by the walk, ends as `Expired` leaves it, and has its foreign calls logged |
| OsTick.WaitSurvivesTick | uCOS-III/Source/os_tick.c:442-451 | a linked timed wait whose match is not the new count stays linked, in the same state, with the same match |
| OsTick.SweepExpiresDue | uCOS-III/Source/os_tick.c:442-500 | a due timed wait that the sweep took off the wheel lies in the visited prefix, ends as `Expired` leaves it, and its ready-list and wait-list calls are in the log |
| OsTick.DelayTick | uCOS-III/Source/os_tick.c:427-451 | on the `k`-th tick after a delay of `d` ticks is armed, the wheel stays ascending with nothing due and only timed waits; the task is still delayed and linked with the same match while `k < d`, and is ready, off the wheel and logged when `k == d` |
| OsTick.SweepCursor | uCOS-III/Source/os_tick.c:433-434 | midway through the sweep, the entry under the cursor is still linked, its next link is the following entry of the original list, and whether it is due is unchanged |
| OsTick.SweepStepDue | uCOS-III/Source/os_tick.c:445-447 | visiting a due entry advances the sweep by one entry, dropping that entry from the list and recording its foreign calls |
| OsTick.SweepStepKept | uCOS-III/Source/os_tick.c:435-451 | visiting an entry that is not due advances the sweep by one entry, keeping it linked in place |
| OsTick.SweptOffWheelDue | uCOS-III/Source/os_tick.c:445-447 | after a due entry is unlinked, every task off the wheel is still `Visited` if the walk reached it and unchanged otherwise |
| OsTick.SweptOffWheelKept | uCOS-III/Source/os_tick.c:449-451 | refreshing an entry that stays linked leaves every task off the wheel as it was |
| OsTick.NeighboursLinked | uCOS-III/Source/os_tick.c:433 | the neighbours a linked task's links name are linked themselves |
| OsTick.TickList.ListInit | uCOS-III/Source/os_tick.c:164-177 | every spoke is emptied with zero counters; with no task linked, the wheel is then well formed, ordered and free of due entries |
| OsTick.TickList.ResetPeak | uCOS-III/Source/os_tick.c:384-395 | every spoke's high-water mark is zero and nothing else changes |
| OsTick.TickList.Remove | uCOS-III/Source/os_tick.c:335-366 | a linked task is taken off its spoke as `RemovedFrom` says and its tick fields are cleared; an unlinked task is left alone |
| OsTick.TickList.Unlink | uCOS-III/Source/os_tick.c:345-364 | the neighbours (or the spoke head) are joined around the task, the task's links, spoke, match and remaining are cleared, the count drops by one, and nothing else changes |
| OsTick.TickList.Insert | uCOS-III/Source/os_tick.c:218-315 | a refused wait leaves the task off the wheel with zero match and remaining; an accepted one is linked as `InsertedAt` says; order, absence of due entries and timed-only membership are kept |
| OsTick.TickList.Place | uCOS-III/Source/os_tick.c:268-313 | a task with its new timing is linked as `InsertedAt` says, keeping the order |
| OsTick.TickList.Link | uCOS-III/Source/os_tick.c:270-313 | the spoke's head, count and high-water mark follow the splice, which lands at the insertion point |
| OsTick.TickList.Update | uCOS-III/Source/os_tick.c:413-515 | the counter advances by one modulo `2^N`, the spoke it hashes to is swept up to where the walk stops as `SweptTo` says (visited tasks as `Visited` leaves them, every task off the wheel exactly as the sweep left it), and the peak duration is the maximum of the old one and this run's |
| OsTick.TickList.Sweep | uCOS-III/Source/os_tick.c:430-509 | the loop visits the spoke's entries in order until the walk stops or the list ends, leaving the state `SweptTo` describes for the visited prefix, including every task off the wheel |
| OsTick.TickList.SweepNext | uCOS-III/Source/os_tick.c:433-505 | one turn reads the next link before visiting, advances the sweep by one entry (the task taken off the wheel, if any, is exactly as `Visited` leaves it), and reports whether the walk stops |
| OsTick.TickList.VisitEntry | uCOS-III/Source/os_tick.c:435-504 | a task that is not a timed wait is skipped; a due timed wait expires and leaves the wheel, recording its calls; one that is not due is refreshed and stops the walk |
| OsTick.TickList.VisitDelay | uCOS-III/Source/os_tick.c:442-451 | a delay whose match is now becomes ready and leaves the wheel; otherwise its remaining is refreshed and the walk stops |
| OsTick.TickList.VisitPendTimeout | uCOS-III/Source/os_tick.c:453-470 | a timed pend whose match is now loses its message, is stamped, leaves its wait list and the wheel, becomes ready and records a timeout; otherwise the walk stops |
| OsTick.TickList.EndPend | uCOS-III/Source/os_tick.c:457-462 | the message is dropped, the task is stamped, and it is removed from its wait list |
| OsTick.TickList.VisitDelaySuspended | uCOS-III/Source/os_tick.c:472-481 | a suspended delay whose match is now stays suspended and leaves the wheel; otherwise the walk stops |
| OsTick.TickList.VisitPendTimeoutSuspended | uCOS-III/Source/os_tick.c:483-500 | a suspended timed pend whose match is now times out as a pend does but stays suspended; otherwise the walk stops |
| OsTick.TickList.DelayUntilReady | uCOS-III/Source/os_tick.c:218-515 | a relative delay of `d` ticks armed by `Insert` on a wheel of timed waits is made ready and taken off the wheel by the `d`-th call of `Update` and by no earlier one; the counter has advanced `d` ticks and the wheel stays ascending with nothing due |
| OsTick.TickList.DelayStep | uCOS-III/Source/os_tick.c:413-515 | one `Update` while a delay is pending keeps the wheel ordered and either leaves the task delayed with the same match or, on the `d`-th tick, makes it ready |
| OsTick.TickList.TaskRdy | uCOS-III/Source/os_tick.c:447 | readying a task takes it off the wheel (the model assumes `OS_TaskRdy` unlinks it first) and hands it to the ready list |
| OsTick.TickList.TickTaskInit | uCOS-III/Source/os_tick.c:102-147 | the counter and peak are cleared and the wheel is emptied before the configuration is checked in the kernel's order; the creation error is reported only when every check passes |
| OsTick.TickList.TickTaskStep | uCOS-III/Source/os_tick.c:61-78 | after the semaphore pend, the tick list is updated exactly when the pend succeeded and the kernel is running; otherwise nothing changes |

## Left out

- Critical sections (`OS_CRITICAL_ENTER`/`EXIT`, `CPU_SR_ALLOC`) are left out. The model is sequential, so every operation runs atomically.
- The blocking `OSTaskSemPend` and the endless loop of `OS_TickTask` are left out. `TickTaskStep` models one turn of the loop, and the pend's error code and `OSRunning` are its inputs.
- `OSTaskCreate` is not part of this model. `TickTaskInit` takes the error it would report as an input, and the `OS_SAFETY_CRITICAL` null-pointer check is left out.
- `OS_TS_GET` is a parameter. `Update` takes one timestamp `ts`, given to every pend that times out during the tick, and the measured duration `elapsed`. The C code reads the clock again for each timed-out pend.
- `OS_TaskRdy` and `OS_PendListRemove` live in other files and are not part of this model. The model assumes that `OS_TaskRdy` first unlinks the task from the tick list, and models that unlinking. The ready-list and wait-list halves are recorded as events.
- `OS_MSG_EN` is treated as enabled, so message fields are cleared on timeout.
- TickMath.Config.Valid: requires `OS_TICK_TH_RDY + 1 < 2^N`. This excludes only `OS_TICK_TH_RDY == 2^N - 1`, for which `tick_delta + 1u` could wrap to zero. The model does not cover that configuration.
- `NbrEntries`/`NbrEntriesMax` are unbounded naturals. The wrap of `OS_OBJ_QTY` is not modelled, because a spoke cannot hold more tasks than exist.
- OsTick.TickList.Insert: requires the task to be off the wheel and `time` to fit in `OS_TICK`. The C code does not check either; its callers unlink the task first, and the argument's type bounds `time`.
- OsTick.TickList.Update: the ordering properties (spokes ascending, nothing due, only timed waits linked, every due task released) are not in its own contract. They are stated by the lemma `OsTick.SweepKeepsOrder` about the state `Update` produces, and hold when the wheel held only timed waits, in ascending order with nothing due, before the tick. A task in another state left linked on a spoke is skipped by the walk, and its remaining goes stale.
- OsTick.TickList.Remove: the ordering properties are stated by the lemma `OsTick.RemovalKeepsOrder` about the `RemovedFrom` relation that `Remove` establishes, not in its own contract.
- `OS_TickListInsert` edits the spoke through a pointer. The model copies the spoke, edits the copy and stores it back once, which has the same effect because nothing else reads the spoke meanwhile.
