/** Every stack kept is handed to the event it belongs to: a later stack record with that event's
    tick, naming one of its two threads, and wanted for what it is kept for. */
module StackOwners {
  import opened Trace
  import opened Seqs
  import opened Stacks
  import opened StackRuns
  import opened StackWaits

  // ---- Events and the stacks that follow them ---------------------------------------------------

  /** Events a stack may follow. */
  predicate Pends(ev: Event) { ev.InitEvent? || ev.FaultEvent? || ev.SwitchEvent? || ev.ReadyEvent? }

  function EventTick(ev: Event): int
    requires Pends(ev)
  {
    if ev.SwitchEvent? then ev.sw.ts else ev.ts
  }

  /** The thread an event's payload names; its header names another. */
  function Payload(ev: Event): nat
    requires Pends(ev)
  {
    match ev
    case InitEvent(_, _, _, _, issuer) => issuer
    case FaultEvent(_, _, _, _, tid) => tid
    case SwitchEvent(_, _, sw) => sw.newTid
    case ReadyEvent(_, _, _, tid) => tid
  }

  predicate NamesThread(ev: Event, tid: nat)
    requires Pends(ev)
  {
    ev.header == tid || (Payload(ev) == tid && tid != 0)
  }

  /** `stack` arrived at step `m`, after the event at step `j`, with its tick and one of its threads. */
  ghost predicate CarriedBy(run: seq<Event>, j: nat, m: nat, stack: Stack) {
    && j < m < |run| && Pends(run[j]) && run[m].StackEvent?
    && stack.pid == run[m].raw.pid && stack.frames == run[m].raw.kernel && stack.user == (run[m].raw.userFrames > 0)
    && run[m].raw.ts == EventTick(run[j]) && NamesThread(run[j], run[m].raw.tid)
  }

  /** Just before step `j` the thread was in a wait worth explaining, begun at `since`. */
  ghost predicate WaitingSince(run: seq<Event>, j: nat, tid: nat, since: int)
    requires j <= |run|
  {
    exists reason: int :: Worth(reason) && Waiting(SwitchesIn(run[..j]), tid, (since, reason))
  }

  /** The event at step `j` is one whose stack is wanted for this. */
  ghost predicate WantedFor(run: seq<Event>, j: nat, want: Want)
    requires j < |run|
  {
    var ev := run[j];
    match want
    case Ignore => true
    case ForDiskInit(irp) => ev.InitEvent? && ev.irp == irp
    case ForFault(start, tid) => ev.FaultEvent? && ev.start == start && ev.tid == tid && ev.ts - start >= KEEP_WAIT
    case ForSwitchIn(tid, since) =>
      ev.SwitchEvent? && ev.sw.newTid == tid && ev.sw.ts - since >= KEEP_WAIT && WaitingSince(run, j, tid, since)
    case ForReadied(tid, since) =>
      ev.ReadyEvent? && ev.tid == tid && ev.ts - since >= KEEP_WAIT && WaitingSince(run, j, tid, since)
  }

  /** `stack` followed the event at step `j`, of this tick and wanted for this. */
  ghost predicate OwnedAt(run: seq<Event>, want: Want, ts: int, stack: Stack, j: nat, m: nat) {
    CarriedBy(run, j, m, stack) && EventTick(run[j]) == ts && WantedFor(run, j, want)
  }

  ghost predicate Owned(run: seq<Event>, want: Want, ts: int, stack: Stack) {
    exists j: nat, m: nat :: OwnedAt(run, want, ts, stack, j, m)
  }

  /** Step `n` is a start of this request. */
  predicate StartAt(run: seq<Event>, n: nat, irp: nat) {
    n < |run| && run[n].InitEvent? && run[n].irp == irp
  }

  /** The step that last started this request. */
  function LastStart(run: seq<Event>, irp: nat): (n: Option<nat>)
    ensures n.Some? ==> StartAt(run, n.value, irp)
  {
    if run == [] then None
    else if run[|run| - 1].InitEvent? && run[|run| - 1].irp == irp then Some(|run| - 1)
    else LastStart(run[..|run| - 1], irp)
  }

  // ---- What each step does to the records -------------------------------------------------------

  /** A matched stack is kept for its event. */
  function Kept(st: State, ev: Event): State
    requires ev.StackEvent? && Matched(st, ev).Some?
  {
    Keep(st.(perCpu := TakeSlot(st.perCpu, Takes(st, ev).value.0, Takes(st, ev).value.1)), Matched(st, ev).value, ev.raw).0
  }

  /** All a matched stack does, but for the counts... */
  lemma {:induction false} StackKept(st: State, ev: Event)
    requires ev.StackEvent? && Matched(st, ev).Some?
    ensures Apply(st, ev) == Kept(st, ev).(counts := Apply(st, ev).counts)
  {
    assert Apply(st, ev) == Give(st, ev.cpu, ev.raw, Takes(st, ev).value.0, Takes(st, ev).value.1);
  }

  /** ...and all one without a match does. */
  lemma {:induction false} StackLost(st: State, ev: Event)
    requires ev.StackEvent? && Matched(st, ev).None?
    ensures Apply(st, ev) == st.(counts := Apply(st, ev).counts)
  {}

  /** A step records a start, adds the stack of the start it took out, or leaves the record alone. */
  ghost predicate RecordChange(st: State, ev: Event, irp: nat, e: (int, Option<Stack>)) {
    || (ev.InitEvent? && ev.irp == irp && irp != 0 && DiskInit in st.asked && e == (ev.ts, None))
    || (irp in st.ioInit && e == st.ioInit[irp] && !(ev.InitEvent? && ev.irp == irp && irp != 0 && DiskInit in st.asked))
    || (ev.StackEvent? && irp in st.ioInit && Matched(st, ev).Some? && Matched(st, ev).value.want == ForDiskInit(irp)
        && Matched(st, ev).value.ts == st.ioInit[irp].0 && e == (st.ioInit[irp].0, Some(FromRaw(ev.raw))))
  }

  lemma {:induction false} IoInitStep(st: State, ev: Event, irp: nat)
    requires irp in Apply(st, ev).ioInit
    ensures RecordChange(st, ev, irp, Apply(st, ev).ioInit[irp])
  {
    match ev
    case StackEvent(_, _) => IoInitStack(st, ev, irp);
    case _ =>
  }

  lemma {:induction false} IoInitStack(st: State, ev: Event, irp: nat)
    requires ev.StackEvent? && irp in Apply(st, ev).ioInit
    ensures RecordChange(st, ev, irp, Apply(st, ev).ioInit[irp])
  {
    if Matched(st, ev).Some? {
      StackKept(st, ev);
    } else {
      StackLost(st, ev);
    }
  }

  lemma {:induction false} ShrinkMembers<T(!new)>(q: seq<T>, cap: nat, ts: T -> int, lost: Option<int>)
    ensures forall x :: x in Shrink(q, cap, ts, lost).0 ==> x in q
    decreases |q|
  {
    if |q| > Max(cap, 1) {
      ShrinkMembers(q[1..], cap, ts, LaterOf(lost, ts(q[0])));
    }
  }

  lemma {:induction false} DropOlderMembers<T(!new)>(q: seq<T>, ts: T -> int, cutoff: int)
    ensures forall x :: x in DropOlder(q, ts, cutoff) ==> x in q
  {
    if q != [] && ts(q[0]) < cutoff {
      DropOlderMembers(q[1..], ts, cutoff);
    }
  }

  lemma {:induction false} SlowIoStep(st: State, ev: Event, q: SlowIo)
    requires q in Apply(st, ev).slowIo
    ensures q in st.slowIo || (ev.DoneEvent? && ev.slow && DiskInit in st.asked && ev.irp != 0 && q == SlowIo(ev.end, ev.irp, Issued(st, ev.irp)))
  {
    match ev
    case DoneEvent(end, irp, slow) =>
      ShrinkMembers(st.slowIo + [SlowIo(end, irp, Issued(st, irp))], SLOW_IO_CAP, SlowEnd, st.lost.slowIo);
    case PruneEvent(latest, keep, _) => DropOlderMembers(st.slowIo, SlowEnd, latest - keep);
    case StackEvent(_, _) => StackFrame(st, ev);
    case _ =>
  }

  /** This step hands its stack to the event it took out, for this. */
  ghost predicate Hands(st: State, ev: Event, want: Want, ts: int, stack: Stack) {
    && ev.StackEvent? && stack == FromRaw(ev.raw)
    && Matched(st, ev).Some? && Matched(st, ev).value.want == want && Matched(st, ev).value.ts == ts
  }

  /** Each entry of the queues after a stack was there before or holds that stack. */
  lemma KeepQueues(st: State, p: Pending, raw: RawStack)
    ensures var kept := Keep(st, p, raw).0;
      && (forall f :: f in kept.faults && f !in st.faults ==>
            p.want == ForFault(f.start, f.tid) && p.ts == f.end && f.stack == FromRaw(raw))
      && (forall s :: s in kept.switchIns && s !in st.switchIns ==>
            p.want == ForSwitchIn(s.tid, s.since) && p.ts == s.ts && s.stack == FromRaw(raw))
      && (forall r :: r in kept.readies && r !in st.readies ==>
            p.want == ForReadied(r.tid, r.since) && p.ts == r.ts && r.stack == FromRaw(raw))
  {
    match p.want
    case ForFault(start, tid) =>
      ShrinkMembers(st.faults + [FaultStack(start, p.ts, tid, FromRaw(raw))], FAULT_CAP, FaultEnd, st.lost.faults);
    case ForSwitchIn(tid, since) =>
      ShrinkMembers(st.switchIns + [SwitchInStack(p.ts, tid, since, FromRaw(raw))], st.switchCap, SwitchInTs, st.lost.switchIns);
    case ForReadied(tid, since) =>
      ShrinkMembers(st.readies + [ReadyStack(p.ts, tid, since, FromRaw(raw))], st.readyCap, ReadyStackTs, st.lost.readies);
    case _ =>
  }

  lemma StackEntries(st: State, ev: Event)
    requires ev.StackEvent?
    ensures forall f :: f in Apply(st, ev).faults ==> f in st.faults || Hands(st, ev, ForFault(f.start, f.tid), f.end, f.stack)
    ensures forall s :: s in Apply(st, ev).switchIns ==> s in st.switchIns || Hands(st, ev, ForSwitchIn(s.tid, s.since), s.ts, s.stack)
    ensures forall r :: r in Apply(st, ev).readies ==> r in st.readies || Hands(st, ev, ForReadied(r.tid, r.since), r.ts, r.stack)
  {
    if Matched(st, ev).Some? {
      StackKept(st, ev);
      KeepQueues(st.(perCpu := TakeSlot(st.perCpu, Takes(st, ev).value.0, Takes(st, ev).value.1)), Matched(st, ev).value, ev.raw);
    } else {
      StackLost(st, ev);
    }
  }

  lemma PruneEntries(st: State, ev: Event)
    requires ev.PruneEvent?
    ensures forall f :: f in Apply(st, ev).faults ==> f in st.faults
    ensures forall s :: s in Apply(st, ev).switchIns ==> s in st.switchIns
    ensures forall r :: r in Apply(st, ev).readies ==> r in st.readies
  {
    DropOlderMembers(st.faults, FaultEnd, ev.latest - ev.keep);
    DropOlderMembers(st.switchIns, SwitchInTs, ev.latest - ev.switchKeep);
    DropOlderMembers(st.readies, ReadyStackTs, ev.latest - ev.switchKeep);
  }

  lemma OtherEntries(st: State, ev: Event)
    requires !ev.StackEvent? && !ev.PruneEvent?
    ensures Apply(st, ev).faults == st.faults && Apply(st, ev).switchIns == st.switchIns && Apply(st, ev).readies == st.readies
  {}

  /** Each entry of the three queues was there before the step, or the step hands it its stack. */
  lemma QueueEntries(st: State, ev: Event)
    ensures forall f :: f in Apply(st, ev).faults ==> f in st.faults || Hands(st, ev, ForFault(f.start, f.tid), f.end, f.stack)
    ensures forall s :: s in Apply(st, ev).switchIns ==> s in st.switchIns || Hands(st, ev, ForSwitchIn(s.tid, s.since), s.ts, s.stack)
    ensures forall r :: r in Apply(st, ev).readies ==> r in st.readies || Hands(st, ev, ForReadied(r.tid, r.since), r.ts, r.stack)
  {
    match ev
    case StackEvent(_, _) => StackEntries(st, ev);
    case PruneEvent(_, _, _) => PruneEntries(st, ev);
    case _ => OtherEntries(st, ev);
  }

  // ---- The invariant ----------------------------------------------------------------------------

  /** Every tracked start is its request's last one, and the stack held for it is that start's. */
  ghost predicate StartsTracked(run: seq<Event>, st: State) {
    && (DiskInit !in st.asked ==> st.ioInit == map[])
    && 0 !in st.ioInit
    && forall irp :: irp in st.ioInit ==> Tracked(run, irp, st.ioInit[irp])
  }

  ghost predicate Tracked(run: seq<Event>, irp: nat, e: (int, Option<Stack>)) {
    var n := LastStart(run, irp);
    && n.Some? && run[n.value].ts == e.0
    && (e.1.Some? ==> Owned(run, ForDiskInit(irp), e.0, e.1.value))
  }

  /** Some event of the run is the one this was pended for. */
  ghost predicate Happened(run: seq<Event>, p: Pending) {
    exists j: nat :: HappenedAt(run, p, j)
  }

  ghost predicate HappenedAt(run: seq<Event>, p: Pending, j: nat) {
    && j < |run| && Pends(run[j]) && p.ts == EventTick(run[j])
    && p.header == run[j].header && p.payload == Payload(run[j]) && WantedFor(run, j, p.want)
  }

  ghost predicate AllHappened(run: seq<Event>, perCpu: seq<seq<Pending>>) {
    forall c, i :: 0 <= c < |perCpu| && 0 <= i < |perCpu[c]| ==> Happened(run, perCpu[c][i])
  }

  /** A found stack belongs to the last start before the completion. */
  ghost predicate HonestAt(run: seq<Event>, q: SlowIo, d: nat) {
    && d < |run| && run[d] == DoneEvent(q.end, q.irp, true)
    && (q.what.Found? ==>
          var n := LastStart(run[..d], q.irp);
          n.Some? && Owned(run[..d], ForDiskInit(q.irp), run[n.value].ts, q.what.stack))
  }

  ghost predicate Honest(run: seq<Event>, q: SlowIo) {
    exists d: nat :: HonestAt(run, q, d)
  }

  lemma WantedGrows(run: seq<Event>, ev: Event, j: nat, want: Want)
    requires j < |run|
    ensures WantedFor(run + [ev], j, want) <==> WantedFor(run, j, want)
  {
    assert (run + [ev])[..j] == run[..j] && (run + [ev])[j] == run[j];
  }

  lemma OwnedGrows(run: seq<Event>, ev: Event, want: Want, ts: int, stack: Stack)
    requires Owned(run, want, ts, stack)
    ensures Owned(run + [ev], want, ts, stack)
  {
    var j: nat, m: nat :| OwnedAt(run, want, ts, stack, j, m);
    WantedGrows(run, ev, j, want);
    assert (run + [ev])[j] == run[j] && (run + [ev])[m] == run[m];
    assert OwnedAt(run + [ev], want, ts, stack, j, m);
  }

  lemma LastStartGrows(run: seq<Event>, ev: Event, irp: nat)
    ensures LastStart(run + [ev], irp) == if ev.InitEvent? && ev.irp == irp then Some(|run|) else LastStart(run, irp)
  {
    assert (run + [ev])[..|run|] == run;
  }

  lemma TrackedGrows(run: seq<Event>, ev: Event, irp: nat, e: (int, Option<Stack>))
    requires Tracked(run, irp, e) && !(ev.InitEvent? && ev.irp == irp)
    ensures Tracked(run + [ev], irp, e)
  {
    LastStartGrows(run, ev, irp);
    if e.1.Some? {
      OwnedGrows(run, ev, ForDiskInit(irp), e.0, e.1.value);
    }
  }

  lemma HappenedGrows(run: seq<Event>, ev: Event, p: Pending)
    requires Happened(run, p)
    ensures Happened(run + [ev], p)
  {
    var j: nat :| HappenedAt(run, p, j);
    WantedGrows(run, ev, j, p.want);
    assert (run + [ev])[j] == run[j];
    assert HappenedAt(run + [ev], p, j);
  }

  lemma HonestGrows(run: seq<Event>, ev: Event, q: SlowIo)
    requires Honest(run, q)
    ensures Honest(run + [ev], q)
  {
    var d: nat :| HonestAt(run, q, d);
    assert (run + [ev])[..d] == run[..d];
    assert HonestAt(run + [ev], q, d);
  }

  lemma TrackStep(run: seq<Event>, st: State, ev: Event)
    requires StartsTracked(run, st) && AllHappened(run, st.perCpu)
    ensures StartsTracked(run + [ev], Apply(st, ev))
  {
    var next := Apply(st, ev);
    AskedKept(st, ev);
    EmptyStep(st, ev);
    forall irp | irp in next.ioInit ensures irp != 0 && Tracked(run + [ev], irp, next.ioInit[irp]) {
      IoInitStep(st, ev, irp);
      LastStartGrows(run, ev, irp);
      if ev.InitEvent? && ev.irp == irp && irp != 0 && DiskInit in st.asked {
        assert (run + [ev])[|run|] == ev;
      } else if ev.StackEvent? && next.ioInit[irp] != st.ioInit[irp] {
        HandedIsOwned(run, st, ev, ForDiskInit(irp), next.ioInit[irp].0, next.ioInit[irp].1.value);
      } else {
        TrackedGrows(run, ev, irp, st.ioInit[irp]);
      }
    }
  }

  lemma {:induction false} EmptyStep(st: State, ev: Event)
    ensures DiskInit !in st.asked && st.ioInit == map[] ==> Apply(st, ev).ioInit == map[]
  {
    match ev
    case StackEvent(_, _) => StackFrame(st, ev);
    case _ =>
  }

  /** A stack handed over belongs to the event it is handed to. */
  lemma HandedIsOwned(run: seq<Event>, st: State, ev: Event, want: Want, ts: int, stack: Stack)
    requires AllHappened(run, st.perCpu) && Hands(st, ev, want, ts, stack)
    ensures Owned(run + [ev], want, ts, stack)
  {
    var (c, i) := Takes(st, ev).value;
    var p := st.perCpu[c][i];
    assert Happened(run, p);
    var j: nat :| HappenedAt(run, p, j);
    WantedGrows(run, ev, j, want);
    assert (run + [ev])[j] == run[j];
    assert OwnedAt(run + [ev], want, ts, stack, j, |run|);
  }

  /** What a step pends is its own event. */
  lemma NewWaiting(run: seq<Event>, all: seq<Event>, st: State, tid: nat)
    requires |run| <= |all| && all[..|run|] == run && WaitsTracked(SwitchesIn(run), st) && NotesWaits(st.asked)
    requires tid in st.offAt && Worth(st.offAt[tid].1)
    ensures WaitingSince(all, |run|, tid, st.offAt[tid].0)
  {
    assert Waiting(SwitchesIn(all[..|run|]), tid, (st.offAt[tid].0, st.offAt[tid].1));
  }

  lemma {:induction false} NewHappened(run: seq<Event>, st: State, ev: Event)
    requires WaitsTracked(SwitchesIn(run), st) && Asked(st, ev).Some?
    ensures HappenedAt(run + [ev], Asked(st, ev).value.1, |run|)
  {
    var p, all := Asked(st, ev).value.1, run + [ev];
    assert all[..|run|] == run && all[|run|] == ev;
    if p.want.ForSwitchIn? || p.want.ForReadied? {
      NewWaiting(run, all, st, p.want.tid);
    }
  }

  /** Every pending event still happened after a step. */
  lemma PendStep(run: seq<Event>, st: State, ev: Event)
    requires AllHappened(run, st.perCpu) && WaitsTracked(SwitchesIn(run), st)
    ensures AllHappened(run + [ev], Apply(st, ev).perCpu)
  {
    var next := Apply(st, ev).perCpu;
    forall c, i | 0 <= c < |next| && 0 <= i < |next[c]| ensures Happened(run + [ev], next[c][i]) {
      SlotOrigin(st, ev, c, i);
      var p := next[c][i];
      if Asked(st, ev).Some? && p == Asked(st, ev).value.1 {
        NewHappened(run, st, ev);
      } else {
        var c', i' :| 0 <= c' < |st.perCpu| && 0 <= i' < |st.perCpu[c']| && st.perCpu[c'][i'] == p;
        HappenedGrows(run, ev, p);
      }
    }
  }

  /** Every pending event was pending before, or is the one this step asked for. */
  lemma SlotOrigin(st: State, ev: Event, c: nat, i: nat)
    requires c < |Apply(st, ev).perCpu| && i < |Apply(st, ev).perCpu[c]|
    ensures var p := Apply(st, ev).perCpu[c][i];
      || (Asked(st, ev).Some? && p == Asked(st, ev).value.1)
      || (exists c', i' :: 0 <= c' < |st.perCpu| && 0 <= i' < |st.perCpu[c']| && st.perCpu[c'][i'] == p)
  {
    SlotsStep(st, ev);
    var next := Apply(st, ev).perCpu;
    if Asked(st, ev).Some? {
      PendOrigin(st.perCpu, Asked(st, ev).value.0, Asked(st, ev).value.1, c, i);
    } else if Takes(st, ev).Some? {
      TakeOrigin(st.perCpu, Takes(st, ev).value.0, Takes(st, ev).value.1, c, i);
    } else {
      assert st.perCpu[c][i] == next[c][i];
    }
  }

  lemma PendOrigin(perCpu: seq<seq<Pending>>, cpu: nat, p: Pending, c: nat, i: nat)
    requires c < |PendSlots(perCpu, cpu, p)| && i < |PendSlots(perCpu, cpu, p)[c]|
    ensures var x := PendSlots(perCpu, cpu, p)[c][i];
      x == p || exists c', i' :: 0 <= c' < |perCpu| && 0 <= i' < |perCpu[c']| && perCpu[c'][i'] == x
  {
    var x := PendSlots(perCpu, cpu, p)[c][i];
    if x != p {
      var k := if c == cpu && Evicts(perCpu, cpu).Some? then i + 1 else i;
      assert c < |perCpu| && k < |perCpu[c]| && perCpu[c][k] == x;
    }
  }

  lemma TakeOrigin(perCpu: seq<seq<Pending>>, cpu: nat, at: nat, c: nat, i: nat)
    requires cpu < |perCpu| && at < |perCpu[cpu]|
    requires c < |TakeSlot(perCpu, cpu, at)| && i < |TakeSlot(perCpu, cpu, at)[c]|
    ensures exists c', i' :: 0 <= c' < |perCpu| && 0 <= i' < |perCpu[c']| && perCpu[c'][i'] == TakeSlot(perCpu, cpu, at)[c][i]
  {
    var k := if c == cpu && i >= at then i + 1 else i;
    assert perCpu[c][k] == TakeSlot(perCpu, cpu, at)[c][i];
  }

  lemma SlowStep(run: seq<Event>, st: State, ev: Event)
    requires StartsTracked(run, st) && forall q :: q in st.slowIo ==> Honest(run, q)
    ensures forall q :: q in Apply(st, ev).slowIo ==> Honest(run + [ev], q)
  {
    forall q | q in Apply(st, ev).slowIo ensures Honest(run + [ev], q) {
      SlowIoStep(st, ev, q);
      if q in st.slowIo {
        HonestGrows(run, ev, q);
      } else {
        assert (run + [ev])[..|run|] == run;
        assert HonestAt(run + [ev], q, |run|);
      }
    }
  }

  /** Every fault, switch-in and wake-up stack kept is its own event's. */
  ghost predicate QueuesOwned(run: seq<Event>, st: State) {
    && (forall f :: f in st.faults ==> Owned(run, ForFault(f.start, f.tid), f.end, f.stack))
    && (forall s :: s in st.switchIns ==> Owned(run, ForSwitchIn(s.tid, s.since), s.ts, s.stack))
    && (forall r :: r in st.readies ==> Owned(run, ForReadied(r.tid, r.since), r.ts, r.stack))
  }

  /** Kept before, or handed over by this step. */
  lemma OwnedStep(run: seq<Event>, st: State, ev: Event, was: bool, want: Want, ts: int, stack: Stack)
    requires AllHappened(run, st.perCpu)
    requires if was then Owned(run, want, ts, stack) else Hands(st, ev, want, ts, stack)
    ensures Owned(run + [ev], want, ts, stack)
  {
    if was {
      OwnedGrows(run, ev, want, ts, stack);
    } else {
      HandedIsOwned(run, st, ev, want, ts, stack);
    }
  }

  lemma QueuesStep(run: seq<Event>, st: State, ev: Event)
    requires AllHappened(run, st.perCpu) && QueuesOwned(run, st)
    ensures QueuesOwned(run + [ev], Apply(st, ev))
  {
    var next := Apply(st, ev);
    QueueEntries(st, ev);
    forall f | f in next.faults ensures Owned(run + [ev], ForFault(f.start, f.tid), f.end, f.stack) {
      OwnedStep(run, st, ev, f in st.faults, ForFault(f.start, f.tid), f.end, f.stack);
    }
    forall s | s in next.switchIns ensures Owned(run + [ev], ForSwitchIn(s.tid, s.since), s.ts, s.stack) {
      OwnedStep(run, st, ev, s in st.switchIns, ForSwitchIn(s.tid, s.since), s.ts, s.stack);
    }
    forall r | r in next.readies ensures Owned(run + [ev], ForReadied(r.tid, r.since), r.ts, r.stack) {
      OwnedStep(run, st, ev, r in st.readies, ForReadied(r.tid, r.since), r.ts, r.stack);
    }
  }

  ghost predicate AllHonest(run: seq<Event>, st: State) {
    && StartsTracked(run, st) && AllHappened(run, st.perCpu) && QueuesOwned(run, st)
    && forall q :: q in st.slowIo ==> Honest(run, q)
  }

  lemma HonestStep(run: seq<Event>, st: State, ev: Event)
    requires AllHonest(run, st) && WaitsTracked(SwitchesIn(run), st)
    ensures AllHonest(run + [ev], Apply(st, ev))
  {
    TrackStep(run, st, ev);
    PendStep(run, st, ev);
    QueuesStep(run, st, ev);
    SlowStep(run, st, ev);
  }

  lemma HonestStart(asked: set<Kind>, switchCap: nat, readyCap: nat)
    ensures AllHonest([], Replay([], asked, switchCap, readyCap))
  {}

  /** Over every run, every stack kept - for a start, a fault, a switch-in or a wake-up - arrived
      after the event it is kept for, with that event's tick and one of its two threads. */
  lemma {:induction false} RunHonest(run: seq<Event>, asked: set<Kind>, switchCap: nat, readyCap: nat)
    ensures AllHonest(run, Replay(run, asked, switchCap, readyCap))
  {
    if run == [] {
      HonestStart(asked, switchCap, readyCap);
    } else {
      var init, ev := run[..|run| - 1], run[|run| - 1];
      RunHonest(init, asked, switchCap, readyCap);
      RunTracksWaits(init, asked, switchCap, readyCap);
      HonestStep(init, Replay(init, asked, switchCap, readyCap), ev);
      assert run == init + [ev];
    }
  }

  /** No request is started twice at one tick. */
  ghost predicate DistinctStarts(run: seq<Event>) {
    forall i, j :: 0 <= i < j < |run| && run[i].InitEvent? && run[j].InitEvent? && run[i].irp == run[j].irp ==> run[i].ts != run[j].ts
  }

  lemma SlowIoStackIsHeld(q: seq<SlowIo>, end: int, irp: nat)
    ensures SlowIoStack(q, end, irp).Some? ==> SlowIo(end, irp, SlowIoStack(q, end, irp).value) in q
  {
    LastFacts(q, AnswerTo(end, irp));
  }

  /** A `Found` stack for a slow request carries the tick of that request's last start before its
      completion and a thread named by a start of it at that tick, however the request packet is
      reused at other ticks. When no packet is started twice at one tick, that is the last start. */
  lemma FoundIsHonest(run: seq<Event>, asked: set<Kind>, switchCap: nat, readyCap: nat, end: int, irp: nat, stack: Stack)
    returns (n: nat, j: nat, m: nat, d: nat)
    requires SlowIoStack(Replay(run, asked, switchCap, readyCap).slowIo, end, irp) == Some(Found(stack))
    ensures n < d && j < m < d < |run| && run[d] == DoneEvent(end, irp, true)
    ensures StartAt(run, n, irp) && forall i :: n < i < d ==> !StartAt(run, i, irp)
    ensures StartAt(run, j, irp) && run[j].ts == run[n].ts && CarriedBy(run, j, m, stack)
    ensures DistinctStarts(run) ==> j == n
  {
    RunHonest(run, asked, switchCap, readyCap);
    var st := Replay(run, asked, switchCap, readyCap);
    SlowIoStackIsHeld(st.slowIo, end, irp);
    var q := SlowIo(end, irp, Found(stack));
    assert Honest(run, q);
    d :| HonestAt(run, q, d);
    var before := run[..d];
    n := LastStart(before, irp).value;
    LastStartIsLast(before, irp);
    j, m :| OwnedAt(before, ForDiskInit(irp), before[n].ts, stack, j, m);
    assert run[j] == before[j] && run[n] == before[n] && run[m] == before[m];
    forall i | n < i < d ensures !StartAt(run, i, irp) {
      assert !StartAt(before, i, irp) && run[i] == before[i];
    }
  }

  lemma {:induction false} LastStartIsLast(run: seq<Event>, irp: nat)
    ensures var n := LastStart(run, irp);
      forall i: nat :: i < |run| && (n.Some? ==> n.value < i) ==> !StartAt(run, i, irp)
  {
    if run != [] {
      var init := run[..|run| - 1];
      LastStartIsLast(init, irp);
      assert forall i: nat :: i < |init| ==> (StartAt(run, i, irp) <==> StartAt(init, i, irp));
    }
  }
}
