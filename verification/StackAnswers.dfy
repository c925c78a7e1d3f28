/** That the matcher finds and keeps what it should: which stacks go unmatched, what is pended for which
    purpose, and what becomes of a stack handed over. */
module StackAnswers {
  import opened Trace
  import opened Seqs
  import opened Stacks
  import opened StackRuns
  import opened StackWaits
  import opened StackOwners

  // ---- Unmatched --------------------------------------------------------------------------------

  lemma {:induction false} OutstandingMembers(perCpu: seq<seq<Pending>>, p: Pending)
    ensures p in Outstanding(perCpu) <==> exists c :: 0 <= c < |perCpu| && p in perCpu[c]
  {
    if perCpu != [] {
      OutstandingMembers(perCpu[1..], p);
      assert perCpu == [perCpu[0]] + perCpu[1..];
      if c :| 0 <= c < |perCpu| && p in perCpu[c] {
        assert c > 0 ==> perCpu[1..][c - 1] == perCpu[c];
      }
      if c :| 0 <= c < |perCpu[1..]| && p in perCpu[1..][c] {
        assert perCpu[c + 1] == perCpu[1..][c];
      }
    }
  }

  /** Some of these events has the stack's tick and one of its two threads its own. */
  ghost predicate Fits(events: multiset<Pending>, raw: RawStack) {
    exists p :: p in events && p.ts == raw.ts && (p.header == raw.tid || (p.payload == raw.tid && raw.tid != 0))
  }

  lemma FitsSomewhere(perCpu: seq<seq<Pending>>, raw: RawStack)
    ensures Fits(Outstanding(perCpu), raw) <==> exists c: nat :: HitOn(perCpu, c, raw.ts, raw.tid)
  {
    if p :| p in Outstanding(perCpu) && Hit(p, raw.ts, raw.tid) {
      OutstandingMembers(perCpu, p);
      var c :| 0 <= c < |perCpu| && p in perCpu[c];
      assert HitOn(perCpu, c, raw.ts, raw.tid);
    }
    if c: nat :| HitOn(perCpu, c, raw.ts, raw.tid) {
      var i :| 0 <= i < |perCpu[c]| && Hit(perCpu[c][i], raw.ts, raw.tid);
      OutstandingMembers(perCpu, perCpu[c][i]);
    }
  }

  /** After any run, a stack is counted unmatched exactly when no event that was pended, and neither
      matched nor evicted since, has its tick and one of its threads. */
  lemma {:induction false} UnmatchedExactly(run: seq<Event>, asked: set<Kind>, switchCap: nat, readyCap: nat, cpu: nat, raw: RawStack)
    ensures var (st, b) := (Replay(run, asked, switchCap, readyCap), Book(run, asked, switchCap, readyCap));
      OnStack(st, cpu, raw).counts.unmatched
      == st.counts.unmatched + if Fits(b.pended - b.matched - b.evicted, raw) then 0 else 1
  {
    var (st, b) := (Replay(run, asked, switchCap, readyCap), Book(run, asked, switchCap, readyCap));
    MatchedAtMostOnce(run, asked, switchCap, readyCap);
    assert b.pended - b.matched - b.evicted == Outstanding(st.perCpu);
    FitsSomewhere(st.perCpu, raw);
    FindMeaning(st.perCpu, cpu, raw.ts, raw.tid);
    var at := Find(st.perCpu, cpu, raw.ts, raw.tid);
    if at.Some? {
      GiveCounts(st, cpu, raw, at.value.0, at.value.1);
    }
  }

  // ---- What is pended for which purpose ---------------------------------------------------------

  predicate AskedFor(asked: set<Kind>, ev: Event) {
    match ev
    case SwitchEvent(_, _, _) => CSwitch in asked
    case ReadyEvent(_, _, _, _) => Readied in asked
    case FaultEvent(_, _, _, _, _) => HardFault in asked
    case InitEvent(_, _, _, _, _) => DiskInit in asked
    case _ => false
  }

  /** After the run the thread is in a wait worth explaining, begun at `since` and long enough. */
  ghost predicate LongWait(run: seq<Event>, tid: nat, since: int, ts: int) {
    ts - since >= KEEP_WAIT && exists reason: int :: (DiskWait(reason) || LockWait(reason)) && Noted(run, tid, (since, reason))
  }

  /** What the stack of the next event is wanted for. */
  ghost predicate WantedExactly(run: seq<Event>, ev: Event, want: Want) {
    match ev
    case SwitchEvent(_, _, sw) =>
      && (want.Ignore? || want.ForSwitchIn?)
      && forall since :: want == ForSwitchIn(sw.newTid, since) <==> LongWait(run, sw.newTid, since, sw.ts)
    case ReadyEvent(ts, _, _, tid) =>
      && (want.Ignore? || want.ForReadied?)
      && forall since :: want == ForReadied(tid, since) <==> LongWait(run, tid, since, ts)
    case FaultEvent(ts, _, _, start, tid) =>
      want == if ts - start >= KEEP_WAIT then ForFault(start, tid) else Ignore
    case _ => true
  }

  /** After any run, an event whose stacks are asked for is pended with its tick and both its threads,
      and a switch-in or a wake-up for the wait it ends exactly when that is long and worth it. */
  lemma {:induction false} PendedExactly(run: seq<Event>, asked: set<Kind>, switchCap: nat, readyCap: nat, ev: Event)
    requires AskedFor(asked, ev)
    ensures var st := Replay(run, asked, switchCap, readyCap);
      && Pended(st, ev).Some?
      && Pended(st, ev).value.ts == EventTick(ev) && Pended(st, ev).value.header == ev.header
      && Pended(st, ev).value.payload == Payload(ev)
      && WantedExactly(run, ev, Pended(st, ev).value.want)
      && (ev.InitEvent? ==> Pended(st, ev).value.want == if ev.irp != 0 && HasRoom(st, ev.irp) then ForDiskInit(ev.irp) else Ignore)
      && Pended(st, ev).value in Outstanding(Apply(st, ev).perCpu)
  {
    var st := Replay(run, asked, switchCap, readyCap);
    RunAsked(run, asked, switchCap, readyCap);
    var (cpu, p) := Asked(st, ev).value;
    if ev.SwitchEvent? {
      forall since ensures p.want == ForSwitchIn(ev.sw.newTid, since) <==> LongWait(run, ev.sw.newTid, since, ev.sw.ts) {
        LongWaitNoted(run, asked, switchCap, readyCap, ev.sw.newTid, since, ev.sw.ts);
      }
    } else if ev.ReadyEvent? {
      forall since ensures p.want == ForReadied(ev.tid, since) <==> LongWait(run, ev.tid, since, ev.ts) {
        LongWaitNoted(run, asked, switchCap, readyCap, ev.tid, since, ev.ts);
      }
    }
    SlotsStep(st, ev);
    PendKeeps(st.perCpu, cpu, p);
    PendedLast(st.perCpu, cpu, p);
  }

  lemma PendedLast(perCpu: seq<seq<Pending>>, cpu: nat, p: Pending)
    ensures p in Outstanding(PendSlots(perCpu, cpu, p))
  {
    var next := PendSlots(perCpu, cpu, p);
    assert p == next[cpu][|next[cpu]| - 1];
    OutstandingMembers(next, p);
  }

  lemma LongWaitNoted(run: seq<Event>, asked: set<Kind>, switchCap: nat, readyCap: nat, tid: nat, since: int, ts: int)
    requires NotesWaits(asked)
    ensures var offAt := Replay(run, asked, switchCap, readyCap).offAt;
      && (tid in offAt ==> tid != 0)
      && (LongWait(run, tid, since, ts) <==>
            tid in offAt && offAt[tid].0 == since && ts - since >= KEEP_WAIT && Worth(offAt[tid].1))
  {
    var st := Replay(run, asked, switchCap, readyCap);
    forall reason: int ensures Noted(run, tid, (since, reason)) <==> HasNoted(st, tid, (since, reason)) {
      WaitsNotedExactly(run, asked, switchCap, readyCap, tid, (since, reason));
    }
    if tid in st.offAt {
      assert HasNoted(st, tid, (st.offAt[tid].0, st.offAt[tid].1));
      WaitsNotedExactly(run, asked, switchCap, readyCap, tid, st.offAt[tid]);
      var k: nat :| NotedAt(run, k, tid, st.offAt[tid]);
      assert OffInto(run[k], tid, st.offAt[tid]);
    }
  }

  // ---- What becomes of a stack handed over ------------------------------------------------------

  predicate Queued(want: Want) { want.ForFault? || want.ForSwitchIn? || want.ForReadied? }

  /** The stack is kept for this event. */
  predicate Holds(st: State, want: Want, ts: int, stack: Stack) {
    match want
    case ForFault(start, tid) => FaultStack(start, ts, tid, stack) in st.faults
    case ForSwitchIn(tid, since) => SwitchInStack(ts, tid, since, stack) in st.switchIns
    case ForReadied(tid, since) => ReadyStack(ts, tid, since, stack) in st.readies
    case _ => false
  }

  function LostOf(st: State, want: Want): Option<int> {
    match want
    case ForFault(_, _) => st.lost.faults
    case ForSwitchIn(_, _) => st.lost.switchIns
    case ForReadied(_, _) => st.lost.readies
    case _ => None
  }

  /** The queue's cap has thrown away something this new. */
  predicate LostTo(lost: Option<int>, ts: int) { lost.Some? && ts <= lost.value }

  /** The step prunes stacks this old. */
  predicate CutBy(ev: Event, want: Want, ts: int) {
    ev.PruneEvent? && ts < ev.latest - (if want.ForFault? then ev.keep else ev.switchKeep)
  }

  lemma ShrinkHolds<T(!new)>(q: seq<T>, cap: nat, ts: T -> int, lost: Option<int>, x: T)
    requires x in q
    ensures x in Shrink(q, cap, ts, lost).0 || LostTo(Shrink(q, cap, ts, lost).1, ts(x))
  {
    ShrinkKeepsNewest(q, cap, ts, lost);
    var kept := Shrink(q, cap, ts, lost).0;
    var i :| 0 <= i < |q| && q[i] == x;
    if i < |q| - |kept| {
      ShrinkNotesLost(q, cap, ts, lost, i);
    } else {
      assert kept[i - (|q| - |kept|)] == x;
    }
  }

  /** What was lost stays lost. */
  lemma {:induction false} ShrinkLost<T(!new)>(q: seq<T>, cap: nat, ts: T -> int, lost: Option<int>, at: int)
    requires LostTo(lost, at)
    ensures LostTo(Shrink(q, cap, ts, lost).1, at)
    decreases |q|
  {
    if |q| > Max(cap, 1) {
      ShrinkLost(q[1..], cap, ts, LaterOf(lost, ts(q[0])), at);
    }
  }

  lemma {:induction false} DropOlderHolds<T(!new)>(q: seq<T>, ts: T -> int, cutoff: int, x: T)
    requires x in q
    ensures x in DropOlder(q, ts, cutoff) || ts(x) < cutoff
  {
    if ts(q[0]) < cutoff && x != q[0] {
      assert q == [q[0]] + q[1..];
      DropOlderHolds(q[1..], ts, cutoff, x);
    }
  }

  /** Keeping one stack: it is held or lost to the cap, and so is everything held before. */
  lemma {:induction false} KeepHolds(st: State, p: Pending, raw: RawStack, want: Want, ts: int, stack: Stack)
    requires Queued(want)
    requires Holds(st, want, ts, stack) || LostTo(LostOf(st, want), ts) || (p.want == want && p.ts == ts && FromRaw(raw) == stack)
    ensures var kept := Keep(st, p, raw).0; Holds(kept, want, ts, stack) || LostTo(LostOf(kept, want), ts)
  {
    match p.want
    case ForFault(start, tid) =>
      if want.ForFault? {
        QueueHolds(st.faults, FaultStack(start, p.ts, tid, FromRaw(raw)), FAULT_CAP, FaultEnd, st.lost.faults, FaultStack(want.start, ts, want.tid, stack));
      }
    case ForSwitchIn(tid, since) =>
      if want.ForSwitchIn? {
        QueueHolds(st.switchIns, SwitchInStack(p.ts, tid, since, FromRaw(raw)), st.switchCap, SwitchInTs, st.lost.switchIns, SwitchInStack(ts, want.tid, want.since, stack));
      }
    case ForReadied(tid, since) =>
      if want.ForReadied? {
        QueueHolds(st.readies, ReadyStack(p.ts, tid, since, FromRaw(raw)), st.readyCap, ReadyStackTs, st.lost.readies, ReadyStack(ts, want.tid, want.since, stack));
      }
    case _ =>
  }

  lemma QueueHolds<T(!new)>(q: seq<T>, item: T, cap: nat, ts: T -> int, lost: Option<int>, x: T)
    requires x in q || x == item || LostTo(lost, ts(x))
    ensures x in Shrink(q + [item], cap, ts, lost).0 || LostTo(Shrink(q + [item], cap, ts, lost).1, ts(x))
  {
    if LostTo(lost, ts(x)) {
      ShrinkLost(q + [item], cap, ts, lost, ts(x));
    } else {
      ShrinkHolds(q + [item], cap, ts, lost, x);
    }
  }

  lemma {:induction false} PruneHolds(st: State, ev: Event, want: Want, ts: int, stack: Stack)
    requires ev.PruneEvent? && Queued(want) && Holds(st, want, ts, stack) && !CutBy(ev, want, ts)
    ensures Holds(Apply(st, ev), want, ts, stack)
  {
    match want
    case ForFault(start, tid) => DropOlderHolds(st.faults, FaultEnd, ev.latest - ev.keep, FaultStack(start, ts, tid, stack));
    case ForSwitchIn(tid, since) => DropOlderHolds(st.switchIns, SwitchInTs, ev.latest - ev.switchKeep, SwitchInStack(ts, tid, since, stack));
    case ForReadied(tid, since) => DropOlderHolds(st.readies, ReadyStackTs, ev.latest - ev.switchKeep, ReadyStack(ts, tid, since, stack));
  }

  lemma {:induction false} HoldStep(st: State, ev: Event, want: Want, ts: int, stack: Stack)
    requires Queued(want)
    requires Holds(st, want, ts, stack) || LostTo(LostOf(st, want), ts) || Hands(st, ev, want, ts, stack)
    ensures Holds(Apply(st, ev), want, ts, stack) || LostTo(LostOf(Apply(st, ev), want), ts) || CutBy(ev, want, ts)
  {
    match ev
    case StackEvent(_, _) =>
      if Matched(st, ev).Some? {
        StackKept(st, ev);
        KeepHolds(st.(perCpu := TakeSlot(st.perCpu, Takes(st, ev).value.0, Takes(st, ev).value.1)), Matched(st, ev).value, ev.raw, want, ts, stack);
      } else {
        StackLost(st, ev);
      }
    case PruneEvent(_, _, _) =>
      if Holds(st, want, ts, stack) && !CutBy(ev, want, ts) {
        PruneHolds(st, ev, want, ts, stack);
      }
    case _ => OtherLost(st, ev, want, ts, stack);
  }

  lemma {:induction false} OtherLost(st: State, ev: Event, want: Want, ts: int, stack: Stack)
    requires !ev.StackEvent? && !ev.PruneEvent? && Queued(want)
    ensures Holds(Apply(st, ev), want, ts, stack) == Holds(st, want, ts, stack) && LostOf(Apply(st, ev), want) == LostOf(st, want)
  {
    OtherEntries(st, ev);
  }

  /** Some step of the run after `m` pruned stacks this old. */
  predicate CutSince(run: seq<Event>, m: nat, want: Want, ts: int) {
    exists j :: m < j < |run| && CutBy(run[j], want, ts)
  }

  /** Over every run, a stack handed to a fault, a switch-in or a wake-up is kept for it until the
      queue's cap drops something as new, which is noted, or a prune cuts it. */
  lemma {:induction false} HandedIsHeld(run: seq<Event>, asked: set<Kind>, switchCap: nat, readyCap: nat,
                                        m: nat, want: Want, ts: int, stack: Stack)
    requires m < |run| && Queued(want) && Hands(Replay(run[..m], asked, switchCap, readyCap), run[m], want, ts, stack)
    ensures var st := Replay(run, asked, switchCap, readyCap);
      Holds(st, want, ts, stack) || LostTo(LostOf(st, want), ts) || CutSince(run, m, want, ts)
  {
    var init, ev := run[..|run| - 1], run[|run| - 1];
    if m < |init| {
      assert init[..m] == run[..m];
      HandedIsHeld(init, asked, switchCap, readyCap, m, want, ts, stack);
      if CutSince(init, m, want, ts) {
        var j :| m < j < |init| && CutBy(init[j], want, ts);
        assert CutBy(run[j], want, ts);
      } else {
        HoldStep(Replay(init, asked, switchCap, readyCap), ev, want, ts, stack);
      }
    } else {
      assert run[..m] == init;
      HoldStep(Replay(init, asked, switchCap, readyCap), ev, want, ts, stack);
    }
  }

  /** The switch-in stacks claim to cover a wait begun at `since`. */
  predicate SwitchInsCover(st: State, since: int) {
    CSwitch in st.asked && (st.lost.switchIns.Some? ==> st.lost.switchIns.value < since)
  }

  /** The claim is honest: a switch-in stack handed over for such a wait is held unless a prune cut it. */
  lemma CoverIsHonest(run: seq<Event>, asked: set<Kind>, switchCap: nat, readyCap: nat, m: nat, tid: nat, since: int, ts: int, stack: Stack)
    requires m < |run| && Hands(Replay(run[..m], asked, switchCap, readyCap), run[m], ForSwitchIn(tid, since), ts, stack)
    requires SwitchInsCover(Replay(run, asked, switchCap, readyCap), since)
    ensures SwitchInStack(ts, tid, since, stack) in Replay(run, asked, switchCap, readyCap).switchIns || CutSince(run, m, ForSwitchIn(tid, since), ts)
  {
    HandedIsHeld(run, asked, switchCap, readyCap, m, ForSwitchIn(tid, since), ts, stack);
    RunHonest(run[..m], asked, switchCap, readyCap);
    assert run[..m + 1] == run[..m] + [run[m]];
    HandedIsOwned(run[..m], Replay(run[..m], asked, switchCap, readyCap), run[m], ForSwitchIn(tid, since), ts, stack);
    var j: nat, n: nat :| OwnedAt(run[..m + 1], ForSwitchIn(tid, since), ts, stack, j, n);
  }
}
