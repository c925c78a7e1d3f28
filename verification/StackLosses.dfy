/** What the matcher's caps threw away, and what is therefore whole. */
module StackLosses {
  import opened Trace
  import opened Seqs
  import opened Stacks
  import opened StackRuns
  import opened StackWaits
  import opened StackOwners
  import opened StackAnswers

  /** The four capped queues. */
  datatype Queue = SlowIos | Faults | SwitchIns | Readies

  function StampsIn(st: State, q: Queue): seq<int> {
    match q
    case SlowIos => Stamps(st.slowIo, SlowEnd)
    case Faults => Stamps(st.faults, FaultEnd)
    case SwitchIns => Stamps(st.switchIns, SwitchInTs)
    case Readies => Stamps(st.readies, ReadyStackTs)
  }

  function LostFrom(st: State, q: Queue): Option<int> {
    match q
    case SlowIos => st.lost.slowIo
    case Faults => st.lost.faults
    case SwitchIns => st.lost.switchIns
    case Readies => st.lost.readies
  }

  function QueueFor(want: Want): Option<Queue> {
    match want
    case ForFault(_, _) => Some(Faults)
    case ForSwitchIn(_, _) => Some(SwitchIns)
    case ForReadied(_, _) => Some(Readies)
    case _ => None
  }

  /** The time of what a step pushes on a queue, if it does. */
  function PushedOn(st: State, ev: Event, q: Queue): Option<int> {
    if q.SlowIos? then
      if ev.DoneEvent? && ev.slow && DiskInit in st.asked && ev.irp != 0 then Some(ev.end) else None
    else if Matched(st, ev).Some? && QueueFor(Matched(st, ev).value.want) == Some(q) then Some(Matched(st, ev).value.ts)
    else None
  }

  /** What of these times and the one pushed is not among the `left` last. */
  function Shed(was: seq<int>, pushed: Option<int>, left: nat): seq<int> {
    if pushed.Some? && left <= |was| + 1 then (was + [pushed.value])[..|was| + 1 - left] else []
  }

  /** The times of what a push found in its queue, or brought, and did not leave there. */
  function ShedFrom(st: State, ev: Event, q: Queue): seq<int> {
    Shed(StampsIn(st, q), PushedOn(st, ev, q), |StampsIn(Apply(st, ev), q)|)
  }

  function ShedBy(run: seq<Event>, asked: set<Kind>, switchCap: nat, readyCap: nat, q: Queue): seq<int> {
    if run == [] then []
    else
      var init := run[..|run| - 1];
      ShedBy(init, asked, switchCap, readyCap, q) + ShedFrom(Replay(init, asked, switchCap, readyCap), run[|run| - 1], q)
  }

  lemma {:induction false} ShrinkNotesNewest<T(!new)>(q: seq<T>, cap: nat, ts: T -> int, lost: Option<int>, before: seq<int>)
    requires IsNewest(lost, before)
    ensures var (kept, noted) := Shrink(q, cap, ts, lost);
      |kept| <= |q| && IsNewest(noted, before + Stamps(q, ts)[..|q| - |kept|])
    decreases |q|
  {
    if |q| > Max(cap, 1) {
      NewestNext(lost, before, ts(q[0]));
      ShrinkNotesNewest(q[1..], cap, ts, LaterOf(lost, ts(q[0])), before + [ts(q[0])]);
      var kept := Shrink(q, cap, ts, lost).0;
      assert Stamps(q, ts)[..|q| - |kept|] == [ts(q[0])] + Stamps(q[1..], ts)[..|q[1..]| - |kept|];
      assert before + [ts(q[0])] + Stamps(q[1..], ts)[..|q[1..]| - |kept|] == before + Stamps(q, ts)[..|q| - |kept|];
    } else {
      assert before + Stamps(q, ts)[..0] == before;
    }
  }

  /** One push on one queue. */
  lemma PushNotes<T(!new)>(was: seq<T>, item: T, cap: nat, ts: T -> int, lost: Option<int>, before: seq<int>)
    requires IsNewest(lost, before)
    ensures var (kept, noted) := Shrink(was + [item], cap, ts, lost);
      |kept| <= |was| + 1 && IsNewest(noted, before + (Stamps(was, ts) + [ts(item)])[..|was| + 1 - |kept|])
  {
    ShrinkNotesNewest(was + [item], cap, ts, lost, before);
    assert Stamps(was + [item], ts) == Stamps(was, ts) + [ts(item)];
  }

  /** The queue's loss is still the newest of all that was shed, with what this push sheds. */
  ghost predicate NotedFor(was: State, kept: State, pushed: int, q: Queue, before: seq<int>) {
    && |StampsIn(kept, q)| <= |StampsIn(was, q)| + 1
    && IsNewest(LostFrom(kept, q), before + Shed(StampsIn(was, q), Some(pushed), |StampsIn(kept, q)|))
  }

  lemma KeepFault(st: State, p: Pending, raw: RawStack, before: seq<int>)
    requires p.want.ForFault? && IsNewest(st.lost.faults, before)
    ensures NotedFor(st, Keep(st, p, raw).0, p.ts, Faults, before)
  {
    PushNotes(st.faults, FaultStack(p.want.start, p.ts, p.want.tid, FromRaw(raw)), FAULT_CAP, FaultEnd, st.lost.faults, before);
  }

  lemma KeepSwitchIn(st: State, p: Pending, raw: RawStack, before: seq<int>)
    requires p.want.ForSwitchIn? && IsNewest(st.lost.switchIns, before)
    ensures NotedFor(st, Keep(st, p, raw).0, p.ts, SwitchIns, before)
  {
    PushNotes(st.switchIns, SwitchInStack(p.ts, p.want.tid, p.want.since, FromRaw(raw)), st.switchCap, SwitchInTs, st.lost.switchIns, before);
  }

  lemma KeepReadied(st: State, p: Pending, raw: RawStack, before: seq<int>)
    requires p.want.ForReadied? && IsNewest(st.lost.readies, before)
    ensures NotedFor(st, Keep(st, p, raw).0, p.ts, Readies, before)
  {
    PushNotes(st.readies, ReadyStack(p.ts, p.want.tid, p.want.since, FromRaw(raw)), st.readyCap, ReadyStackTs, st.lost.readies, before);
  }

  lemma KeepApart(st: State, p: Pending, raw: RawStack, q: Queue)
    requires QueueFor(p.want) != Some(q)
    ensures LostFrom(Keep(st, p, raw).0, q) == LostFrom(st, q)
  {}

  lemma {:induction false} KeepNotes(st: State, p: Pending, raw: RawStack, q: Queue, before: seq<int>)
    requires IsNewest(LostFrom(st, q), before) && QueueFor(p.want) == Some(q)
    ensures NotedFor(st, Keep(st, p, raw).0, p.ts, q, before)
  {
    match q
    case Faults => KeepFault(st, p, raw, before);
    case SwitchIns => KeepSwitchIn(st, p, raw, before);
    case Readies => KeepReadied(st, p, raw, before);
    case SlowIos => assert false;
  }

  lemma {:induction false} DoneNotes(st: State, end: int, irp: nat, before: seq<int>)
    requires IsNewest(st.lost.slowIo, before) && DiskInit in st.asked && irp != 0
    ensures var next := OnDiskDone(st, end, irp, true);
      && |next.slowIo| <= |st.slowIo| + 1
      && IsNewest(next.lost.slowIo, before + (Stamps(st.slowIo, SlowEnd) + [end])[..|st.slowIo| + 1 - |next.slowIo|])
  {
    PushNotes(st.slowIo, SlowIo(end, irp, Issued(st, irp)), SLOW_IO_CAP, SlowEnd, st.lost.slowIo, before);
  }

  /** What a step that pushes nothing on a queue leaves alone. */
  lemma {:induction false} NothingPushed(st: State, ev: Event, q: Queue)
    requires !ev.StackEvent? && PushedOn(st, ev, q).None?
    ensures LostFrom(Apply(st, ev), q) == LostFrom(st, q)
  {}

  lemma {:induction false} StackNotes(st: State, ev: Event, q: Queue, before: seq<int>)
    requires IsNewest(LostFrom(st, q), before) && ev.StackEvent? && Matched(st, ev).Some?
    ensures var kept := Kept(st, ev);
      IsNewest(LostFrom(kept, q), before + Shed(StampsIn(st, q), PushedOn(st, ev, q), |StampsIn(kept, q)|))
  {
    var at, p := Takes(st, ev).value, Matched(st, ev).value;
    var taken := st.(perCpu := TakeSlot(st.perCpu, at.0, at.1));
    if QueueFor(p.want) == Some(q) {
      KeepNotes(taken, p, ev.raw, q, before);
    } else {
      KeepApart(taken, p, ev.raw, q);
      assert before + [] == before;
    }
  }

  /** The counts are none of the queues. */
  lemma QueuesApart(st: State, counts: Counts, q: Queue)
    ensures LostFrom(st.(counts := counts), q) == LostFrom(st, q) && StampsIn(st.(counts := counts), q) == StampsIn(st, q)
  {}

  lemma {:induction false} NotesStep(st: State, ev: Event, q: Queue, before: seq<int>)
    requires IsNewest(LostFrom(st, q), before)
    ensures IsNewest(LostFrom(Apply(st, ev), q), before + ShedFrom(st, ev, q))
  {
    assert before + [] == before;
    if ev.StackEvent? {
      if Matched(st, ev).Some? {
        StackKept(st, ev);
        QueuesApart(Kept(st, ev), Apply(st, ev).counts, q);
        StackNotes(st, ev, q, before);
      } else {
        StackLost(st, ev);
      }
    } else if PushedOn(st, ev, q).Some? {
      DoneNotes(st, ev.end, ev.irp, before);
    } else {
      NothingPushed(st, ev, q);
    }
  }

  /** Over every run the time noted as lost from a queue is the newest of all its cap threw away. */
  lemma {:induction false} LostIsNewestShed(run: seq<Event>, asked: set<Kind>, switchCap: nat, readyCap: nat, q: Queue)
    ensures IsNewest(LostFrom(Replay(run, asked, switchCap, readyCap), q), ShedBy(run, asked, switchCap, readyCap, q))
  {
    if run != [] {
      var init := run[..|run| - 1];
      LostIsNewestShed(init, asked, switchCap, readyCap, q);
      NotesStep(Replay(init, asked, switchCap, readyCap), run[|run| - 1], q, ShedBy(init, asked, switchCap, readyCap, q));
    }
  }

  /** The stacks are asked for, and all of these times are before the wait. */
  ghost predicate WholeSince(asked: set<Kind>, shed: seq<int>, since: int) {
    CSwitch in asked && forall ts :: ts in shed ==> ts < since
  }

  lemma CoverOf(st: State, asked: set<Kind>, shed: seq<int>, since: int)
    requires st.asked == asked && IsNewest(LostFrom(st, SwitchIns), shed)
    ensures SwitchInsCover(st, since) <==> WholeSince(asked, shed, since)
  {}

  /** Over every run the switch-in stacks claim to cover a wait exactly when they are asked for and
      everything their cap threw away is older than it. */
  lemma {:induction false} CoverExactly(run: seq<Event>, asked: set<Kind>, switchCap: nat, readyCap: nat, since: int)
    ensures SwitchInsCover(Replay(run, asked, switchCap, readyCap), since)
      <==> WholeSince(asked, ShedBy(run, asked, switchCap, readyCap, SwitchIns), since)
  {
    RunAsked(run, asked, switchCap, readyCap);
    LostIsNewestShed(run, asked, switchCap, readyCap, SwitchIns);
    CoverOf(Replay(run, asked, switchCap, readyCap), asked, ShedBy(run, asked, switchCap, readyCap, SwitchIns), since);
  }
}
