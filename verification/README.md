# WTFIsStalling: the evidence pipeline

WTFIsStalling watches a Windows kernel trace while a PC hitches and then says what was responsible.
Its conclusions are read out of bounded history: two scheduler rings and a request ring that are
capped by count and pruned by time, pending slots for call stacks, held-back stalls and events. This
project models that pipeline, from the rings to the conclusions, and proves what it promises.

Each module follows one part of the source.

| file | part |
|---|---|
| `Trace.dfy`, `Seqs.dfy` | the trace records and the clock; filtering, sorting and boundary search |
| `Rings.dfy` | the bounded history and when it may be read (`src/state.rs`) |
| `Tally.dfy` | capping a per-file tally by its upper median (`src/state.rs`) |
| `DiskStuck.dfy`, `Evidence.dfy`, `Finality.dfy` | the threads a slow request kept waiting, read off the rings and off the whole trace, and when that can still change (`src/diskstuck.rs`) |
| `Occupancy.dfy`, `Probes.dfy`, `Waits.dfy` | replaying the scheduler: who held a processor, why a probe was late, who was kept waiting (`src/switches.rs`) |
| `WindowEvidence.dfy` | the same conclusions from a copied window and from the whole trace (`src/analyze.rs`) |
| `Stacks.dfy`, `StackRuns.dfy`, `StackWaits.dfy`, `StackOwners.dfy`, `StackAnswers.dfy`, `DiskAnswers.dfy`, `StackLosses.dfy`, `StackCounts.dfy`, `WaitStacks.dfy`, `StackCopies.dfy`, `StackState.dfy` | matching call stacks to the events they belong to (`src/stacks.rs`) |
| `Tick.dfy`, `Notables.dfy`, `Intervals.dfy` | clustering, pairing and settling stalls; the event log's hold-back; interval arithmetic (`src/analyze.rs`) |
| `Quiet.dfy` | folding repeated events into roll-ups (`src/quiet.rs`) |
| `Calendar.dfy`, `Timestamps.dfy` | the civil calendar and event-log timestamps (`src/evlog.rs`) |
| `Decimal.dfy`, `ChildProtocol.dfy` | the probe process's line protocol (`src/probe.rs`) |
| `Slices.dfy` | did interrupt work keep running through a stall (`src/intr.rs`) |

## How it is modelled

- Ticks are mathematical integers. The counter's frequency is an unspecified constant of at least
  1 kHz and every duration is the source's number of milliseconds times it, rounded down.
- An object the source updates in place is a class. Its methods equate the new fields with a function
  of the old ones, and, where the promise is about whole runs, a ghost field holds everything that
  ever happened to the object and the class stays equal to the replay of that run. What every run
  keeps is then proved about the replay, by induction on it.
- A loop over local variables is a method with that loop, proved against a function or a declarative
  predicate; the meaning of that function is a lemma of its own.
- Time-ordered delivery is the environment's promise (`src/state.rs:358-360`, `src/state.rs:504-506`):
  `Rings.InOrder` asks that records and the trace's newest time arrive in order of their stamps.
  The window extractor is proved for rings out of order by up to a millisecond.
- A hash map is walked in an arbitrary order: either the loop takes any remaining key, or, in
  `Tally`, the order is a parameter of which nothing is known but that it visits each key once.
- Clock readings, "has the trace caught up" and the count caps are inputs.
- Shares are compared by cross-multiplication: nine tenths idle is `10 * idle >= 9 * span`, and six
  tenths of the slices is `10 * covered >= 6 * 10`.

## Where the code and its own words differ

- `cap_by_wait` promises that the longer-waiting half survives. When more entries than half the
  cap lie above the median, which of them stay depends on the walk; `Tally.LongestKeptExactly` says
  exactly when. `Tally.OneOverKeepsTheLongest` says that one entry past the cap, which is when the
  callers cap, the promise holds.
- `quiet` bounds the lines of a subject because each outlier triples the worst shown. The bound holds
  of lengths that are positive and below the largest machine integer and of no others
  (`Quiet.AlwaysBoundedExactly`): events of length zero or of that largest one are each shown
  (`Quiet.EndsAreFlooded`).
- `parse_iso` skips the fraction and the zone. Its comment names only the form ending in `Z`; its
  check accepts any ending. With numeric offsets an earlier timestamp can be read as the later one
  (`Timestamps.AheadIsReadLater`); order to the second is kept between two zones exactly when their
  offsets agree (`Timestamps.ZonesKeepOrderExactly`). Order within one second is lost
  (`Timestamps.UtcKeepsOrder`).
- A stall of no particular processor is printed as processor 0 and read back as that one;
  `ChildProtocol.RoundTripExactly` says exactly which messages come back as themselves. The child's
  probes are all pinned, so it writes none of the others.
- The answer about stuck threads is final once given; the answer about lock chains need not be, when
  it is given with the trace just at the last tick of the look-ahead: a record stamped with that tick
  may still arrive. `Finality.ChainsFinalExactly` says exactly when nothing can change any more,
  `Finality.OpenIsNotFinal` is a run on which something does. The event log asks that early only when
  it has given up waiting or the run ends; otherwise it waits 50 ms longer, and then the chains are
  final (`Finality.WaitedForIsFinal`).
- The search for a wait's fault allows a millisecond of slack. For a wait no longer than that it can
  choose a fault that only began with the wake-up (`WaitStacks.FaultBeganBeforeExactly`); the waits
  that are looked up are longer (`WaitStacks.StuckLookup`).
- The stacks copied for a slow request reach 71 ms past its completion. A stuck thread that gets a
  processor only after that loses its switch-in stack, though it is kept (`StackCopies.StuckCopyTells`).
- The window copied for an incident ends where its latest stall does, although the trace has already
  gone 50 ms further, and a late wake-up is judged by the switch that ran the thread within a slack
  after it. `WindowEvidence.JudgementIsWhole` says exactly when the judgement is that of the whole
  trace; `WindowEvidence.CutShortSays` what is said otherwise: for a pinned probe only the end of its
  queueing differs, for any other the processor may (`WindowEvidence.CutShortJudgesLess`). The lead of
  250 ms is enough for a processor exactly when some switch on it falls in the lead, or the trace has
  none before (`WindowEvidence.HoldersAreWholeExactly`).

## Model

| member | source | states |
|---|---|---|
| `Rings.Inner.constructor` | src/state.rs:357-414 | A new history is empty and has an empty run behind it. |
| `Rings.Inner.PushSwitch` | src/state.rs:466-474 | The object stays equal to the replay of everything ever delivered, now with this switch in it (counted, pushed, the oldest dropped and its time noted when the cap is exceeded). |
| `Rings.Inner.PushReady` | src/state.rs:476-484 | The same for a wake-up; both rings share one overflow flag and one newest-lost time. |
| `Rings.Inner.Prune` | src/state.rs:543-560 | After any run in order, pruning leaves in the two scheduler rings exactly what is at most six seconds behind the trace, and of the requests exactly what is at most `keep` behind it, in order. |
| `Seqs.PopOlder` | src/state.rs:546-560 | The pop-front loop removes exactly the longest prefix older than the cutoff. |
| `Rings.RunKeeps` | src/state.rs:466-566 | Invariant of every in-order run, however pushes and prunings interleave: each ring is a tail of all that was delivered, in order, and everything it lacks is no newer than the newest record the caps dropped or older than the last cutoff. |
| `Rings.DropOlderTail` | src/state.rs:543-551 | Pruning a time-ordered tail leaves a tail with nothing older than the cutoff in it. |
| `Rings.CoverageIsSound` | src/state.rs:487-498 | Whenever the rings claim to reach back to `from`, they hold every switch and every wake-up ever delivered from then on, same records in the same order, although only the switch ring's front is looked at; the requests too, when they are kept as long. |
| `Rings.CoversExactly` | src/state.rs:487-498 | Over every in-order run the rings claim to reach back to `from` if and only if every record the caps ever dropped is stamped before `from`, some switch still held is not after it, and some wake-up is held. What was dropped is told by the pushes themselves, not by the time noted as lost. |
| `Rings.LostIsNewestDropped` | src/state.rs:466-484 | Over every run the time noted as lost is the newest stamp of all the caps dropped, and there is none if they dropped nothing. |
| `Rings.DropsOnlyWhenFull` | src/state.rs:466-484 | Over every run neither ring holds more than its cap, at least 300,000, and a push drops something only from a ring that is full. |
| `Rings.CountersExactly` | src/state.rs:466-484 | Over every run the counters are the numbers of switches and wake-ups delivered, the overflow flag says whether a cap ever dropped anything, `latest` is the latest time the trace was seen to reach, and the last pruning's time what that then was. |
| `Rings.PrunesExactly` | src/state.rs:543-560 | What a pruning leaves of each ring after any run in order, by linear filter, although it only looks at the front. |
| `Rings.Between` | src/state.rs:507-517 | The slice between two searched edges loses nothing of the window on a ring out of order by at most the slop, crossed edges included; with no slop on an ordered ring it is exactly the window. |
| `Rings.OutsideEdges` | src/state.rs:507-513 | The boundary a binary search lands on, on data it was not made for, is enough: no record outside the two edges is in the window. |
| `Rings.Inner.SwitchWindow` | src/state.rs:507-517 | Equals the linear filter `from <= ts <= to` of both rings, same records in the same order, on rings disordered by at most a millisecond. |
| `Rings.WindowIsWhole` | src/state.rs:487-517 | Over every in-order run, a window read from covering rings is what was ever delivered in that window, and the rings meet the extractor's disorder bound. |
| `Rings.Inner.StuckRecords` | src/state.rs:528-541 | Hands out records if and only if everything the caps dropped is older than the start, some switch held is not after it, some wake-up is held and the trace is far enough; then the wake-ups of the stretch and the woken threads' switches, by linear filter. |
| `Seqs.PartitionPoint` | src/state.rs:510-516 | What a binary search promises on any sequence: its answer sits on a boundary of the predicate. |
| `Tally.CapByWait` | src/state.rs:267-284 | At most the cap: untouched. Over it: the first half-cap entries above the upper median, in whatever order the map is walked; one over the cap, at most half the cap stays and everything kept waited longer than everything dropped. |
| `Tally.MedianFound` | src/state.rs:273-275 | The middle of the sorted waits is the upper median: fewer than half the entries lie above it and at most half below. |
| `Tally.MedianUnique` | src/state.rs:273-275 | There is one such value, whatever the order of the walk. |
| `Tally.OneOverKeepsTheLongest` | src/state.rs:267-284 | On a map of cap + 1 entries exactly those strictly above the upper median stay, whatever the walk: the room counter never bites. |
| `Tally.AnySizeIsBounded` | src/state.rs:276-283 | On any map the number kept is the smaller of half the cap and the entries above the median, and nothing at or below the median is kept. |
| `Tally.LongestKeptExactly` | src/state.rs:267-284 | The documented promise, that only the longest waits stay, holds for every walk if and only if half the cap is zero or no more entries than that lie above the median; otherwise some walk keeps a wait no longer than one it drops. |
| `DiskStuck.LookAfterReaches` | src/diskstuck.rs:133-146 | The look-ahead reaches past the last wake-up that can matter. |
| `DiskStuck.StuckBehind` | src/diskstuck.rs:194-230 | The loop with its early exits lists, longest wait first, exactly what the first wake-up of each thread that meets all the conditions tells: inside the stretch; its newest switch-off before that into a wait that began after the request started and before it completed; a disk reason, or for the issuer any that is not voluntary; for any other thread, no request nearby that explains it as well; long enough. |
| `DiskStuck.LockChains` | src/diskstuck.rs:236-262 | The same for waiters on locks the stuck threads let go: woken by a stuck thread within the window after it woke, out of a lock wait begun before that, and not stuck themselves. |
| `DiskStuck.StuckExactly` | src/diskstuck.rs:194-230 | A thread is listed if and only if some wake-up of it meets every condition, and with the first that does; the conditions are stated of the records alone. |
| `DiskStuck.ChainsExactly` | src/diskstuck.rs:236-262 | The same for lock chains. |
| `DiskStuck.FirstTellingsMeaning` | src/diskstuck.rs:198-201 | A thread is reported exactly when some wake-up of it tells, once, and with what the first such wake-up says. |
| `DiskStuck.StuckBehindMeaning` | src/diskstuck.rs:190-230 | The answer is exactly the set of first telling wake-ups, strictly ordered by wait and then thread. |
| `DiskStuck.LockChainsMeaning` | src/diskstuck.rs:233-262 | The same for lock chains. |
| `Evidence.NewestOffRestricted` | src/diskstuck.rs:183-188 | Keeping only some threads' switches since `start` keeps each such thread's newest switch-off when it happened since `start`, and turns an older one into none. |
| `Evidence.SameRivals` | src/analyze.rs:1942-1943 | A request that could explain the wake-up of a wait begun since the slow request did is among the nearby ones that are looked at, and no later request is one. |
| `Evidence.SameStuckJudgement` | src/diskstuck.rs:198-226 | One wake-up says the same on the copied records as on everything ever delivered, later records included. |
| `Evidence.StuckAnswerIsFinal` | src/state.rs:519-541 | End to end: whenever records are handed out after any run, the threads found stuck on that restricted copy are those the entire unbounded trace and request history give, and nothing delivered later can change the answer. |
| `Evidence.LockAnswerIsWhole` | src/state.rs:519-541 | The lock chains found on the copy are those of everything delivered so far, and stay so whatever is delivered later stamped past the look-ahead. What is stamped with its last tick is the next rows' subject. |
| `Finality.ChainsFinalExactly` | src/state.rs:519-541 | No in-order continuation of the trace can change the lock chains if and only if the trace has gone past the last tick of the look-ahead, or no chain was told of on that very tick and no stuck thread still able to tell on it has, among the threads not reported, one in a lock wait it could end: all of it read off the rings and the answer itself. |
| `Finality.OpenIsNotFinal` | src/diskstuck.rs:233-262 | A run of four steps on which the answer is not final: records are handed out, no chain is found, and one wake-up stamped with the last tick adds one (where the look-ahead is exactly the sum of the two delays). |
| `Finality.WaitedForIsFinal` | src/analyze.rs:1811-1828 | Whenever the event log really waited for the trace, to 71 ms past the completion, the chains are final. |
| `Finality.RoundedUpIsFinal` | src/diskstuck.rs:133-146 | Where rounding the milliseconds to ticks leaves the look-ahead longer than the two delays it is made of, the answer is always final. |
| `Occupancy.NewestBetween` | src/switches.rs:148-157 | Between two switches on a processor the newest one stays the same. |
| `Occupancy.ReplayTotals` | src/switches.rs:156-177 | After the replay each thread's total is the number of ticks of the window at which it is the thread of the newest switch on that processor. |
| `Occupancy.HeldTotals` | src/switches.rs:156-177 | ...with the priority of the newest switch that put it there; the table is empty exactly when nothing is known of the processor. |
| `Occupancy.MostHeld` | src/switches.rs:183-184 | A thread of maximal total among the candidates, in whatever order the map is walked. |
| `Occupancy.HeldBy` | src/switches.rs:147-189 | Idle exactly when the idle thread has nine tenths of the ticks; otherwise the true maximum among the others with its exact ticks and priority, `0 < held <= to - from`; unknown exactly when the window is empty, or it is not idle and no other thread has a tick. |
| `Occupancy.TotalsAddUp` | src/switches.rs:162-177 | The threads' totals sum to the window's length, or to what is left of it from the first switch inside when nothing earlier is known. |
| `Probes.ClassifyProbe` | src/switches.rs:233-274 | The outcome reports the judgement of the window; a queued thread's processor is called idle exactly when it was for nine tenths of the ticks, and otherwise the longest holder is named exactly when some other thread had a tick of it. |
| `Probes.JudgementMeaning` | src/switches.rs:243-258 | Unjudged exactly when the window has no length or no wake-up in range; late exactly when every wake-up in range lies more than the slack after it was due, by as much as the earliest does. |
| `Probes.OnTimeMeaning` | src/switches.rs:261-274 | Woken on time: blocked exactly when it was switched off into a wait between its earliest wake-up and the window's end, with the newest such wait's reason; otherwise queued from that wake-up until the newest switch that ran it, or the window's end, for the processor it is pinned to or else the one it then ran on. |
| `Probes.LastIsNewestSuch` | src/switches.rs:240 | A reverse search of the switches finds the newest one of its kind, or nothing when there is none. |
| `Probes.FirstReadyIsEarliest` | src/switches.rs:243-245 | On a time-ordered stream the first wake-up record in range is the earliest. |
| `Probes.ProbeVerdict.Push` | src/switches.rs:334-356 | Adds one outcome to the tally and nothing else. |
| `Probes.ProbeVerdict.Rank` | src/switches.rs:365-366 | Worst holders first, cut at eight. |
| `Probes.JudgeProbes` | src/switches.rs:360-368 | Adds up one outcome per window and cuts the holders to the worst eight: each count is the number of windows with that judgement; late + queued + blocked + unknown is the number of windows, and those left on an idle processor are among the queued. |
| `Probes.EachOnce` | src/switches.rs:334-368 | Every window falls under exactly one judgement. |
| `Probes.NotWokenExactly` | src/switches.rs:316-327 | `NotWoken` is said exactly when some window can be judged and in every one that can the earliest wake-up in range lies more than the slack after it was due, whatever order the switches are in. |
| `Probes.OverallExactly` | src/switches.rs:316-327 | No word is said exactly when no window can be judged; otherwise `NotWoken`, `LeftQueued` or `WasBlocked` exactly when every window that can be is woken too late, is woken on time and not switched off into a wait before its end, or is woken on time and is; `Mixed` in exactly the remaining cases. |
| `Probes.HoldersListed` | src/switches.rs:334-347 | Before the cut the holders are exactly those the outcomes name, one per outcome and in order, each with its priority and ticks. |
| `Probes.ReasonsOnce` | src/switches.rs:349-354 | The wait reasons listed are those of the outcomes that blocked, each once. |
| `Probes.Worst8Exactly` | src/switches.rs:360-368 | The cut keeps eight of them, or all if there are fewer, longest first, and none it drops was held longer than one it keeps. |
| `Waits.Merged` | src/switches.rs:417-434 | The two-index loop yields the merge of the two filtered streams. |
| `Waits.MergeMembers` | src/switches.rs:417-434 | The merge loses and invents nothing: each stream is its own part of it, in order. |
| `Waits.MergeOrdered` | src/switches.rs:424-425 | It is in time order, a tie going to the wake-up. |
| `Waits.LiveMeaning` | src/switches.rs:461-523 | What the pass knows of a thread is read off its own history: blocked exactly when its last event was a switch-off into a wait, runnable since the first event that made it so. |
| `Waits.BlockedMeaning` | src/switches.rs:466-479 | `blocked` is the longest gap from a switch-off into a wait to the thread's very next event when that is a wake-up, with that wait's reason and waker; the first of equals. |
| `Waits.ReadyMeaning` | src/switches.rs:484-500 | `ready` is the longest gap from the first event making the thread runnable since its last reset to its next switch-in, with where and when; the first of equals. |
| `Waits.TerminationSplits` | src/switches.rs:442-510 | A termination splits a thread id's history into two independent halves whose rows are combined by maximum. |
| `Waits.ReplaySteps` | src/switches.rs:450-526 | The pass holds, for every thread, exactly what that thread's heard history says, where an event is missed exactly when its thread has no place and all 20,000 are taken; a termination frees a place. |
| `Waits.NothingMissedExactly` | src/switches.rs:450-455 | The pass hears everything if and only if no thread without a place has an event while all are taken. |
| `Waits.FewThreadsAllHeard` | src/switches.rs:450-455 | It does when the window has no more threads than there are places. |
| `Waits.Rank` | src/switches.rs:528-531 | Exactly the rows with a wait, worst first and then by thread, cut at the cap so that only lesser ones are missing. |
| `Waits.Waits` | src/switches.rs:446-532 | On every window each row is its thread's own worst waits over what was heard of it, worst first, and only lesser ones are missing; when the window has at most 20,000 threads, over all the stream has of it. |
| `Waits.RowsExactly` | src/switches.rs:446-532 | What the rows tell of a stream that was heard in full: each is some thread's longest time blocked and longest time ready, by its own events in the stream; the longer of the two orders the rows; the idle thread has none; and a thread that waited at all has one, unless there are 512 no better. |
| `Waits.HistoryExactly` | src/switches.rs:456-523 | What the pass is given of a thread is exactly what the stream has of it, in order: its wake-ups, and every switch with it on either side; nothing of the idle thread. |
| `WindowEvidence.WaitsAreWhole` | src/analyze.rs:608-627 | Over every run, what the waits are computed from on a covered window is what the whole trace, later deliveries included, has for that stretch. |
| `WindowEvidence.JudgementIsWhole` | src/switches.rs:233-274 | Over every run, a late wake-up is judged on a covered window that ends no earlier than it as on the whole trace if and only if the window tells of it: it has no length or no wake-up at all; or the first wake-up in range lies in the window and, of a queued thread, so does the last switch that ran it; or that wake-up came before the window and the thread blocked after a later one that is on time and in it. Then any outcome right of the window is right of the whole trace, and the other way round, when the lead knows the queue's processor. |
| `WindowEvidence.CutShortSays` | src/analyze.rs:615-625 | What is said instead when the window ends too early: nothing of a thread woken after it; of one that ran after it, that it queued from the same time until one inside the window, for the same processor if it is pinned. |
| `WindowEvidence.HoldersAreWholeExactly` | src/analyze.rs:610-617 | A covered window credits every thread with exactly the ticks the whole trace does if and only if the lead has a switch of that processor not after the start, or there was none at all by then. |
| `WindowEvidence.CutShortJudgesLess` | src/analyze.rs:592-625 | An input: on a window that stops where the wake-up ended the switch that ran the thread just after is missing, and with it the processor it waited for. |
| `Stacks.PushCapped` | src/stacks.rs:485-492 | The loop shrinks the queue to the cap and notes the newest time it dropped. |
| `Stacks.ShrinkKeepsNewest` | src/stacks.rs:485-492 | A capped queue is the newest part of what was pushed, at the cap exactly when more was. |
| `Stacks.ShrinkNotesLost` | src/stacks.rs:477-479 | Everything dropped is no newer than the time noted, so everything after that is whole. |
| `Stacks.FindMeaning` | src/stacks.rs:521-534 | The search misses if and only if nothing pending fits; what it finds is the oldest fit of its processor, and on another than its own only when nothing fits there or on any processor before. |
| `Stacks.StacksCountedOnce` | src/stacks.rs:420-424 | Over every run the total equals the number of stack events: each is counted once. |
| `Stacks.CountsConsistent` | src/stacks.rs:554-582 | No more stacks are kept than matched, and slow completions are among the completions. |
| `StackCounts.CountsExactly` | src/stacks.rs:537-677 | Over every run each counter is the number of steps that did what it counts: stacks matched by header or by payload and kept, per kind; stacks from another processor; starts there was no room for; completions with and without a start; slow ones with a stack, with none, and with no start seen. |
| `StackRuns.MatchedAtMostOnce` | src/stacks.rs:505-535 | Over every run each pended event is matched at most once and is otherwise evicted or outstanding, at most four per processor, and exactly the wanted evictions are counted as overwritten. |
| `StackOwners.FoundIsHonest` | src/stacks.rs:537-582 | A `Found` stack carries the tick of the request packet's last start before that completion and a thread named by a start of it at that tick, however packets are reused; that start itself when none is started twice at one tick. |
| `StackOwners.IoInitStep` | src/stacks.rs:546-551 | All that ever happens to a tracked start: it is recorded, given the stack of its own tick, or left alone. |
| `StackOwners.SlowIoStep` | src/stacks.rs:566-581 | Every kept answer for a slow request was kept before or is what this completion found. |
| `StackOwners.QueueEntries` | src/stacks.rs:647-672 | A fault, switch-in or wake-up stack is in its queue because it was there before or because this stack event hands it over; it is the stack the event carries, with the tick of the event it was matched to. |
| `StackOwners.RunHonest` | src/stacks.rs:537-677 | Invariant of every run: a tracked start is its packet's last one, a pending event really happened, every kept answer is honest, and the stack kept with every fault, switch-in and wake-up arrived after that event with its tick and one of its two threads. |
| `StackOwners.SlowIoStackIsHeld` | src/stacks.rs:701-703 | The lookup only returns what is kept for that completion and packet. |
| `StackWaits.WaitsNotedExactly` | src/stacks.rs:593-613 | Over every run a thread is noted as waiting since a time and for a reason if and only if the stacks of switches or wake-ups are asked for and it was switched off into that wait, has not been switched in or off into another since, and no prune has cut it. |
| `StackAnswers.UnmatchedExactly` | src/stacks.rs:521-534 | After every run a stack is counted unmatched if and only if no event pended before, and neither matched nor evicted since, has its tick and one of its two threads. |
| `StackAnswers.PendedExactly` | src/stacks.rs:537-625 | After every run an event whose stacks are asked for is pended with its tick and both its threads; a switch-in or wake-up is wanted for a wait if and only if the thread is noted in that wait, it is long enough and worth it; a fault if and only if it was long enough; a start if and only if it can be tracked. |
| `StackAnswers.HandedIsHeld` | src/stacks.rs:640-697 | Over every run a stack handed to a fault, switch-in or wake-up is in its queue unless the queue's cap dropped something as new, which is noted, or a later prune cut it. |
| `StackAnswers.CoverIsHonest` | src/stacks.rs:713-717 | When the switch-in stacks claim to cover a wait, every stack handed over for it is held unless a prune cut it. |
| `StackLosses.CoverExactly` | src/stacks.rs:713-717 | Over every run the switch-in stacks claim to cover a wait if and only if they are asked for and everything their cap ever threw away is stamped before it; what was thrown away is told by the pushes themselves. |
| `StackLosses.LostIsNewestShed` | src/stacks.rs:476-492 | Over every run the time noted as lost from each of the four queues is the newest of all its cap threw away, and there is none if that is nothing. |
| `DiskAnswers.StartsTrackedExactly` | src/stacks.rs:537-551 | Over every run a start of a packet at a tick is tracked if and only if some step was one, with room for it, and the packet has neither been started again nor completed since, nor the start pruned. |
| `DiskAnswers.StacksGivenExactly` | src/stacks.rs:654-661 | The tracked start has a stack if and only if that was the last one handed to a start of the packet at its tick. |
| `DiskAnswers.SlowAnswerExactly` | src/stacks.rs:553-582 | A slow completion can be looked up at once: it says the start was not seen if and only if none is tracked, and gives a stack if and only if that was handed to the tracked start. |
| `DiskAnswers.OnlyAskedAnswered` | src/stacks.rs:553-556 | Over every run nothing is answered that was not asked for, nor for a request without a packet. |
| `DiskAnswers.AnswersKept` | src/stacks.rs:566-581 | Over every run an answer once given is kept until the queue's cap drops one as new, which is noted, or a prune cuts it. |
| `WaitStacks.ClosestFaultMeaning` | src/stacks.rs:764-770 | The fault chosen spans the wait and none that does completed closer to the wake-up. |
| `WaitStacks.WaitStackExactly` | src/stacks.rs:742-770 | A stack is returned whenever one is kept for the wait: that of the first switch-in that ends it, or if there is none that of the closest fault that spans it, the first of equals; nothing exactly when there is neither. |
| `WaitStacks.SinceIsNewest` | src/stacks.rs:593-613 | On streams where a thread is switched in before it is switched out again, every kept switch-in stack was carried by a later stack event with the tick of that switch and one of its two threads, and its `since` is the thread's newest switch-out before that switch, into a wait, with nothing happening to it in between. |
| `WaitStacks.StackOfThisWait` | src/stacks.rs:742-763 | Given the wait a wake-up ended, a stack `wait_stack` returns as a switch-in's was carried by a stack event that followed the switch that ended that very wait, with its tick and one of its threads: never the stack of the thread's next wait. |
| `WaitStacks.FaultOfThisWait` | src/stacks.rs:764-770 | A stack it returns as a fault's was carried by a stack event that followed a fault the thread took that spans the wait, with the fault's tick and one of its threads; no kept one completed closer to the wake-up; for a wait longer than the slack the fault began before the wake-up. |
| `WaitStacks.FaultBeganBeforeExactly` | src/stacks.rs:764-770 | Whatever faults long enough to be kept there are, the one chosen began before the wake-up if and only if the wait was longer than the slack. |
| `WaitStacks.StuckLookup` | src/analyze.rs:2025-2033 | A stuck thread's stack is looked up for exactly the wait its wake-up ended, and, whatever faults are kept, the one chosen for it began before that wake-up. |
| `WaitStacks.ChainLookup` | src/analyze.rs:2049-2053 | A lock waiter's stack is looked up for exactly the wait its wake-up ended. |
| `StackCopies.StuckCopyTells` | src/stacks.rs:707-711 | For every thread found stuck, looking up the stacks copied out for the request finds the same fault as looking up all that are kept, and the same switch-in if and only if that is none or came no later than 71 ms past the completion; then the stack is the same. |
| `StackCopies.ChainCopyTells` | src/analyze.rs:1950-1958 | The same for every thread that waited on a lock behind them. |
| `StackStates.StackState.Pend` | src/stacks.rs:505-519 | Pushes one pending event on its processor's slots, the oldest falling out at four. |
| `StackStates.StackState.Take` | src/stacks.rs:521-534 | Takes out the event the search finds and leaves every other slot; takes nothing if and only if nothing pending fits. |
| `StackStates.StackState.OnDiskInit` | src/stacks.rs:537-551 | The state stays the replay of the run, with this start in it. |
| `StackStates.StackState.OnDiskDone` | src/stacks.rs:554-582 | ...with this completion in it. |
| `StackStates.StackState.OnFault` | src/stacks.rs:585-591 | ...with this fault in it. |
| `StackStates.StackState.OnSwitch` | src/stacks.rs:595-613 | ...with this switch in it. |
| `StackStates.StackState.OnReady` | src/stacks.rs:616-625 | ...with this wake-up in it. |
| `StackStates.StackState.OnStack` | src/stacks.rs:628-677 | ...with this stack given to the event it belongs to, or counted as unmatched. |
| `StackStates.StackState.Prune` | src/stacks.rs:681-697 | ...with everything older than the two windows gone: each queue loses exactly its front up to the first entry inside its window. |
| `Ticking.ClusterUp` | src/analyze.rs:544-554 | The loop over the last cluster computes the clusters. |
| `Ticking.ClustersFlat` | src/analyze.rs:544-554 | Clustering only cuts the sorted list up. |
| `Ticking.ClustersAreComponents` | src/analyze.rs:544-554 | Two stalls of the sorted list are held by one cluster exactly when a chain of same-kind stalls, each within the gap of the next, joins them. |
| `Ticking.LinkedIsOverlap` | src/analyze.rs:551 | For stalls that do not end before they start, that link is overlap to within the gap. |
| `Ticking.PairTwins` | src/analyze.rs:556-570 | The loop pairs each kernel cluster with the first free twin and keeps the rest on their own. |
| `Ticking.OnlyTwinsPair` | src/analyze.rs:2200-2205 | A group with both halves has halves alike at both ends: earliest starts and latest ends, read off the stalls, no further apart than the slack... |
| `Ticking.NoTwinsLeftApart` | src/analyze.rs:556-570 | ...and, of the groups one step forms, none left with only its real-time half is a twin of one left with only its ordinary half: a freeze both saw is one incident. |
| `Ticking.HalvesOfKind` | src/analyze.rs:556-570 | Each half of a step's groups holds the reports of its own probe and no others. |
| `Ticking.InSlotsTake` | src/analyze.rs:564-568 | Taking a scheduler cluster out of its slot takes exactly its stalls: it cannot be paired again. |
| `Ticking.Analyzer.Receive` | src/analyze.rs:527-538 | Minor stalls go to their own list, pruned from the front; all others become pending, in order. |
| `Ticking.Analyzer.SettleGroups` | src/analyze.rs:572-590 | Exactly the groups that are due, or all if forced, become incidents, in order, each saying whether the trace was past its latest end; every other is pending again, stall for stall. |
| `Ticking.SettleExactly` | src/analyze.rs:572-590 | A group is due exactly when the trace is 50 ms past the latest end of its stalls and 300 ms have gone by, or 4 s have; and both halves are in hand, or 500 ms have gone by. |
| `Ticking.TickSettles` | src/analyze.rs:526-591 | So after every step exactly the step's groups that are due are among the new incidents, and every other is pending. |
| `Ticking.Analyzer.Tick` | src/analyze.rs:526-591 | One step is receiving, sorting, clustering, pairing and settling, in that order. |
| `Ticking.TickKeeps` | src/analyze.rs:526-591 | One step neither loses nor repeats a stall: incidents and pending together hold each stall that is not minor as often as they did and it arrived. |
| `Ticking.StallsConserved` | src/analyze.rs:526-591 | Over every run each stall that is not minor is in exactly one incident or still pending, as often as it was sent; a minor one never is. |
| `Ticking.MinorsListed` | src/analyze.rs:527-538 | Over every run only minor stalls that were sent are listed as such, and each stays listed until it is 30 s old. |
| `Ticking.OnlyRecentIsHeld` | src/analyze.rs:574-588 | A forced step leaves nothing pending; any other only groups whose latest end is at most four seconds old. |
| `Ticking.NothingTooSoon` | src/analyze.rs:572-585 | Unless forced, a step only adds incidents, each old enough: past 300 ms, the trace past its end or 4 s gone by, and both halves in hand or 500 ms gone by. |
| `Notables.Reporter.HandleEvent` | src/analyze.rs:1829-1873 | One event is counted and then folded, suppressed or given a line, the line window restarting after a second. |
| `Notables.Reporter.HandleBatch` | src/analyze.rs:1829-1873 | The batch is handled one by one in order, each at its own clock reading. |
| `Notables.Reporter.Report` | src/analyze.rs:1802-1877 | One step of the log: of what was held and what arrived, everything before the first slow request still waited for is handled and everything from it on is held, or nothing on the last call; and exactly the roll-ups that then fall due come out. |
| `Notables.HandledOnceInOrder` | src/analyze.rs:1802-1877 | Over every run, what was handled followed by what is held is what arrived, in order; total = shown + suppressed + folded; the last call holds nothing. |
| `Notables.LinesAreHandled` | src/analyze.rs:1829-1873 | Over every run the lines written are handled events, in the order they were handled, each at most once. |
| `Notables.SixLinesAWindow` | src/analyze.rs:1863-1873 | However events come and wait, at most six lines are written in one line window. |
| `Notables.LinesAreFirstSixes` | src/analyze.rs:1863-1873 | Over every run the lines are exactly the first six of each window of events not folded, and the others are suppressed, where the windows are read off the times alone: each begins with the first such event more than a second after the one before began. |
| `Notables.QuietSecondEnds` | src/analyze.rs:1863-1873 | Whatever came before, the first such event after more than a second without one gets a line. |
| `Notables.QuietIsTold` | src/analyze.rs:1829-1915 | Over every run the log's quieter is offered exactly the events handled, once and in order, and swept at the end of every step, of everything on the last call: so what is proved of every run of a quieter holds of the log's. |
| `Notables.HeldExactly` | src/analyze.rs:1812-1828 | Of any state, a step holds back a suffix: nothing on the last call; otherwise nothing handled is still waited for, and what is held, if anything, begins with a slow request that is. |
| `Notables.WaitedFor` | src/analyze.rs:1812-1828 | Over every run, no step but a last call handles a slow request still waited for, and none stops short of the first of them; a last call handles all that ever arrived. |
| `Quiet.Quieter.Offer` | src/quiet.rs:49-68 | A line is given to the first three and to outliers; everything else is folded with its count, worst and note. |
| `Quiet.Quieter.Due` | src/quiet.rs:71-81 | Exactly the due roll-ups come out, one per subject, oldest first and then by name, in whatever order the map is walked, and exactly those are cleared. |
| `Quiet.Quieter.Flush` | src/quiet.rs:84-86 | Everything held comes out, due or not. |
| `Quiet.OffersConserved` | src/quiet.rs:49-86 | Per subject, over every run: offers = own lines + counts in emitted roll-ups + held. |
| `Quiet.RollupMeaning` | src/quiet.rs:60-66 | What is held summarizes exactly the events folded since the last roll-up: their number, the first one's time, and their maximum with the note of the first to reach it. |
| `Quiet.LastRollupMeaning` | src/quiet.rs:54-56 | The stored time is that of the subject's last roll-up, or of its first line. |
| `Quiet.RollupsWhenDue` | src/quiet.rs:71-81 | A sweep emits a subject's roll-up if and only if something was folded since the last one and the period since that, or since the subject's first line, has gone by. |
| `Quiet.RollupsAreSpaced` | src/quiet.rs:71-81 | A roll-up comes at least one period after the subject's previous one, or after the subject first appeared. |
| `Quiet.ShownExactly` | src/quiet.rs:49-59 | Over every run an event is shown by itself if and only if it is among its subject's first three to, or outlasts three times over, up to saturation, every one of the subject's that did. |
| `Quiet.TextLeExactly` | src/quiet.rs:71-81 | Subjects are ordered as text: a beginning first, otherwise by the first character that differs. |
| `Quiet.LinesAreLogarithmic` | src/quiet.rs:49-59 | `3^(lines - 3)` never exceeds the worst duration offered, for durations that are positive and below the largest machine integer. |
| `Quiet.EndsAreFlooded` | src/quiet.rs:51 | Events of length zero or of the largest machine integer all get a line, however many there are; so do the first three of any length, negative ones included. |
| `Quiet.AlwaysBoundedExactly` | src/quiet.rs:49-59 | That bound holds of every run whose lengths come from a given set of machine integers if and only if every length in the set is positive and below the largest machine integer. |
| `Intervals.UnionLen` | src/analyze.rs:2207-2217 | The exact number of ticks covered by any multiset of nested, overlapping, empty or inverted half-open intervals. |
| `Intervals.UnionNext` | src/analyze.rs:2213-2214 | In sorted order the next interval adds exactly what lies beyond the furthest end so far. |
| `Intervals.TicksMeaning` | src/analyze.rs:2207-2208 | A tick is counted exactly when some interval covers it. |
| `Intervals.MergedSpans` | src/analyze.rs:2332-2344 | The merged spans are sorted and disjoint, and contain a tick exactly when some exec on that processor does, both ends included. |
| `Intervals.InSpans` | src/analyze.rs:2346-2349 | The binary search is exact membership on such spans. |
| `Intervals.CoreLoads` | src/analyze.rs:2351-2369 | One load per processor seen, in order, whose counts are its samples, those inside an interrupt record and those idle outside any. |
| `Intervals.PartsMakeTheWhole` | src/analyze.rs:2351-2366 | Interrupt, idle and other make up all of a processor's samples. |
| `Calendar.EpochIsZero` | src/evlog.rs:273-282 | 1970-01-01 is day 0. |
| `Calendar.EraIsFloor` | src/evlog.rs:276 | The adjusted truncating division is the floor on both sides of year zero. |
| `Calendar.NextDayNumber` | src/evlog.rs:273-282 | The day after any valid date, in any integer year, has exactly the next number, by the Gregorian leap rule. |
| `Calendar.DayNumberOrders` | src/evlog.rs:273-282 | Later dates have strictly larger numbers. |
| `Calendar.DayNumberOf` | src/evlog.rs:273-282 | Counting days off the calendar one by one, forwards or backwards from the epoch, reaches every number. |
| `Calendar.DayNumberCounts` | src/evlog.rs:273-282 | The closed formula and counting days agree on every date: each number belongs to exactly one. |
| `Timestamps.TextReads` | src/evlog.rs:284-297 | The six fields of a timestamp are read as the seconds they say, and nothing after them is read. |
| `Timestamps.ReadsItsInstantExactly` | src/evlog.rs:284-297 | A timestamp of the form in section 5.6 of RFC 3339, with any fraction and zone, is read as the second it falls in if and only if its zone is no distance from UTC. |
| `Timestamps.AheadIsReadLater` | src/evlog.rs:284-297 | Two such timestamps, one two hours ahead of UTC, of which the earlier is read as the later. |
| `Timestamps.ZonesKeepOrderExactly` | src/evlog.rs:284-297 | Reading keeps chronological order, to the second, between all timestamps of two zones if and only if the zones have the same offset. |
| `Timestamps.UtcKeepsOrder` | src/evlog.rs:284-297 | Timestamps in UTC, which is all the event log writes, are never read in the wrong order, and two come out equal exactly when their fields to the second count the same. |
| `Timestamps.SecondsOrder` | src/evlog.rs:296 | Later moments never come out earlier, and come out equal exactly where a leap second meets the start of the next minute. |
| `Timestamps.TextOrder` | src/evlog.rs:284-297 | Earlier fields have earlier text. |
| `Timestamps.ReadingKeepsOrder` | src/evlog.rs:284-297 | Between timestamps equally far from UTC, what is read orders them to the second exactly as the calendar does, but for a leap second and the second after it, and the calendar exactly as comparing their first nineteen characters would. |
| `Decimal.ParsePrinted` | src/probe.rs:247-250 | Every 64-bit number is read back as itself. |
| `Decimal.ParsesExactly` | src/probe.rs:247-250 | A text is read as a number if and only if it is a sign or none and digits, whose value by their places fits 64 bits; then as exactly that. |
| `Decimal.PrintedShort` | src/probe.rs:357-374 | A minus sign is printed of negative numbers alone, and no zero before other digits. |
| `ChildProtocol.ParseChildLine` | src/probe.rs:242-265 | The loop over the words, stopping at the first that is no number, computes the message of the line. |
| `ChildProtocol.ParsePrint` | src/probe.rs:357-374 | Every message whose fields fit their integers comes back with the same fields. |
| `ChildProtocol.RoundTripExactly` | src/probe.rs:242-265 | It comes back as itself if and only if it is not a stall, or is a real-time stall pinned to a processor. |
| `ChildProtocol.AcceptedFits` | src/probe.rs:238-241 | Whatever is accepted from any line has its fields in range, and says the same when printed and read again. |
| `ChildProtocol.StreamRoundTrip` | src/probe.rs:285-300 | Over a whole run of lines the parent hears every message the child wrote, in order, and nothing else. |
| `Slices.SlicesCovered` | src/intr.rs:26-37 | The number of slices of the stall at least one start falls in, at most ten, the very end belonging to the last one. |
| `Slices.HitExactly` | src/intr.rs:26-37 | A tenth of the stall counts as covered if and only if some start lies in it, the very end lying in the last. |
| `Slices.KeptRunningExactly` | src/intr.rs:39-43 | The calls are said to have kept running exactly when there were at least ten and six tenths of the stall saw one. |
| `Slices.CoverageGrows` | src/intr.rs:26-37 | More starts never cover fewer slices. |
| `Slices.CoverageSpreads` | src/intr.rs:26-37 | Covering n + 2 slices puts two starts inside the stall more than n tenths of its length apart. |
| `Slices.KeptRunningSpreads` | src/intr.rs:39-43 | When the calls are said to have kept running, whatever the total, two starts lie more than four tenths of the stall apart: no shorter burst can pass. |

## Left out

- Windows calls and I/O: tracing sessions, the registry, counters, process snapshots, threads and channels, files, the user interface. Their results are inputs.
- Report wording, line fitting, advice text, path redaction and name tables: formatting only.
- Threshold ladders over already computed numbers (`verdict_kernel`, `verdict_sched`, `src/diskwhy.rs`, `src/diskwait.rs`, `src/overhead.rs`, `src/baseline/compare.rs`): one branch settles each.
- Request classification (`src/diskstuck.rs:80-95`) and thrash detection: tables of flags and rules of thumb.
- Binary decoding of trace payloads and topology records, and the XML scanning of `src/evlog.rs`: offset plumbing.
- Floating-point detection (`src/period.rs`, `intr::flow`, shares of samples): rounding is the content there.
- Machine overflow of tick sums and differences; 64-bit limits are modelled where the source tests or saturates them (tripling, number parsing, the sweep's first reach).
- Other rings of the same object (interrupt records, faults, samples, beats, debug counters) and the check on pruning frequency: they follow the request ring's rule and no conclusion modelled here reads them.
- Record fields no modelled conclusion reads (file, offset, size, priorities of the old thread, the last processor in `Live`, payload sizes, frames beyond the kernel list).
- The analysis of an incident itself: an incident is recorded with its two clusters and whether the trace had caught up.
- Holding events back until the storage trace has caught up: it is part of the `waiting` predicate given to a step.
- The probe-thread list behind `T` lines and the order in which the child announces it: a capped list without a promise of its own.
- Evidence.StuckAnswerIsFinal: asks that the request ring is kept at least as long as the scheduler rings (20 s against 6 s in the source), which the source sets as two constants.
- Probes.ProbeVerdict.Rank: holders with equal ticks keep their order, as the source's stable sort does, and no more is said of them.
- Sorting is the standard library's; it is modelled as a stable insertion sort of which the proofs use order and permutation.
- Intervals.UnionLen: sorts a copy; the source sorts the caller's buffer in place, which nobody reads afterwards.
- Tally.CapByWait: takes and returns the map; the source retains in place.
- Timestamps.TextReads: is about text with valid calendar fields, and the zone lemmas about an upper-case `T` and `Z`; on anything else the source computes some number from whatever six fields parse, and so does the model.
