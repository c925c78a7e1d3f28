/** What the matcher's counters count: the steps of a run at which this or that happened. */
module StackCounts {
  import opened Trace
  import opened Stacks
  import opened StackRuns

  /** How many steps of the run did this, each told from the state before it. */
  ghost function StepsThat(run: seq<Event>, asked: set<Kind>, switchCap: nat, readyCap: nat, did: (State, Event) -> bool): nat {
    if run == [] then 0
    else
      var init := run[..|run| - 1];
      StepsThat(init, asked, switchCap, readyCap, did)
      + if did(Replay(init, asked, switchCap, readyCap), run[|run| - 1]) then 1 else 0
  }

  // ---- What can happen at a step ----------------------------------------------------------------

  /** A stack is matched to an event of this kind... */
  predicate Matches(st: State, ev: Event, k: Kind) {
    Matched(st, ev).Some? && Matched(st, ev).value.kind == k
  }

  /** ...naming the thread of the event's header, or else that of its payload... */
  function ByHeader(k: Kind): (State, Event) -> bool {
    (st: State, ev: Event) => Matches(st, ev, k) && ev.StackEvent? && ev.raw.tid == Matched(st, ev).value.header
  }

  function ByPayload(k: Kind): (State, Event) -> bool {
    (st: State, ev: Event) => Matches(st, ev, k) && ev.StackEvent? && ev.raw.tid != Matched(st, ev).value.header
  }

  /** ...and kept: for a start only while that is the one tracked. */
  function KeptAs(k: Kind): (State, Event) -> bool {
    (st: State, ev: Event) => Matches(st, ev, k) &&
      match Matched(st, ev).value.want
      case Ignore => false
      case ForDiskInit(irp) => irp in st.ioInit && st.ioInit[irp].0 == Matched(st, ev).value.ts
      case _ => true
  }

  /** A stack is matched to an event of another processor than its own. */
  function FromElsewhere(): (State, Event) -> bool {
    (st: State, ev: Event) => ev.StackEvent? && Takes(st, ev).Some? && Takes(st, ev).value.0 != ev.cpu
  }

  /** A start cannot be tracked. */
  function StartDropped(): (State, Event) -> bool {
    (st: State, ev: Event) => ev.InitEvent? && DiskInit in st.asked && ev.irp != 0 && |st.ioInit| >= 65_536 && ev.irp !in st.ioInit
  }

  /** A completion is looked at, its start tracked or not... */
  function DoneWith(tracked: bool): (State, Event) -> bool {
    (st: State, ev: Event) => ev.DoneEvent? && DiskInit in st.asked && ev.irp != 0 && (ev.irp in st.ioInit) == tracked
  }

  /** ...and it was slow, its start's stack known or not. */
  function SlowWith(known: bool): (State, Event) -> bool {
    (st: State, ev: Event) => DoneWith(true)(st, ev) && ev.DoneEvent? && ev.slow && ev.irp in st.ioInit && st.ioInit[ev.irp].1.Some? == known
  }

  function SlowUnseen(): (State, Event) -> bool {
    (st: State, ev: Event) => DoneWith(false)(st, ev) && ev.DoneEvent? && ev.slow
  }

  // ---- One step ---------------------------------------------------------------------------------

  function One01(b: bool): nat { if b then 1 else 0 }

  ghost predicate KindNext(was: KindCount, next: KindCount, st: State, ev: Event, k: Kind) {
    && next.byHeader == was.byHeader + One01(ByHeader(k)(st, ev))
    && next.byPayload == was.byPayload + One01(ByPayload(k)(st, ev))
    && next.kept == was.kept + One01(KeptAs(k)(st, ev))
  }

  ghost predicate IoNext(was: Completions, next: Completions, st: State, ev: Event) {
    && next.withInit == was.withInit + One01(DoneWith(true)(st, ev))
    && next.withoutInit == was.withoutInit + One01(DoneWith(false)(st, ev))
    && next.found == was.found + One01(SlowWith(true)(st, ev))
    && next.noStack == was.noStack + One01(SlowWith(false)(st, ev))
    && next.noInit == was.noInit + One01(SlowUnseen()(st, ev))
  }

  ghost predicate CountsNext(was: Counts, next: Counts, st: State, ev: Event) {
    && (forall k :: KindNext(was.kinds.Get(k), next.kinds.Get(k), st, ev, k))
    && IoNext(was.io, next.io, st, ev)
    && next.otherCpu == was.otherCpu + One01(FromElsewhere()(st, ev))
    && next.initDropped == was.initDropped + One01(StartDropped()(st, ev))
  }

  lemma MatchedCounts(c: Counts, kind: Kind, byHeader: bool, elsewhere: bool, kept: bool, k: Kind)
    ensures var next := CountMatched(c, kind, byHeader, elsewhere, kept);
      && next.kinds.Get(k) == (if k == kind then Bump(c.kinds.Get(kind), byHeader, kept) else c.kinds.Get(k))
      && next.io == c.io && next.initDropped == c.initDropped && next.otherCpu == c.otherCpu + One01(elsewhere)
  {
    SetGet(c.kinds, kind, k, Bump(c.kinds.Get(kind), byHeader, kept));
  }

  /** What a match is counted as. */
  lemma {:induction false} GivenAs(st: State, cpu: nat, raw: RawStack)
    requires Find(st.perCpu, cpu, raw.ts, raw.tid).Some?
    ensures var p := Matched(st, StackEvent(cpu, raw)).value;
      OnStack(st, cpu, raw).counts == CountMatched(st.counts, p.kind, raw.tid == p.header,
                                                   FromElsewhere()(st, StackEvent(cpu, raw)), KeptAs(p.kind)(st, StackEvent(cpu, raw)))
  {
    var (c, i) := Find(st.perCpu, cpu, raw.ts, raw.tid).value;
    FindMeaning(st.perCpu, cpu, raw.ts, raw.tid);
    assert HitOn(st.perCpu, c, raw.ts, raw.tid);
    assert OnOwnCpu(st.perCpu, cpu, raw.ts, raw.tid) <==> c == cpu;
  }

  lemma {:induction false} GiveCounted(st: State, cpu: nat, raw: RawStack)
    requires Find(st.perCpu, cpu, raw.ts, raw.tid).Some?
    ensures CountsNext(st.counts, OnStack(st, cpu, raw).counts, st, StackEvent(cpu, raw))
  {
    var ev := StackEvent(cpu, raw);
    var p := Matched(st, ev).value;
    GivenAs(st, cpu, raw);
    forall k ensures KindNext(st.counts.kinds.Get(k), OnStack(st, cpu, raw).counts.kinds.Get(k), st, ev, k) {
      MatchedCounts(st.counts, p.kind, raw.tid == p.header, FromElsewhere()(st, ev), KeptAs(p.kind)(st, ev), k);
    }
    MatchedCounts(st.counts, p.kind, raw.tid == p.header, FromElsewhere()(st, ev), KeptAs(p.kind)(st, ev), p.kind);
  }

  lemma SetGet(kinds: Kinds, k: Kind, other: Kind, c: KindCount)
    ensures kinds.Set(k, c).Get(other) == if k == other then c else kinds.Get(other)
  {}

  /** Only stacks move the counters of the kinds, only completions those of the requests. */
  lemma {:induction false} CountersApart(st: State, ev: Event)
    ensures !ev.StackEvent? ==>
      Apply(st, ev).counts.kinds == st.counts.kinds && Apply(st, ev).counts.otherCpu == st.counts.otherCpu
    ensures !ev.StackEvent? && !ev.DoneEvent? ==> Apply(st, ev).counts.io == st.counts.io
    ensures !ev.StackEvent? && !ev.InitEvent? ==> Apply(st, ev).counts.initDropped == st.counts.initDropped
  {}

  lemma {:induction false} DoneCounted(st: State, ev: Event)
    requires ev.DoneEvent?
    ensures IoNext(st.counts.io, Apply(st, ev).counts.io, st, ev)
  {}

  lemma {:induction false} InitCounted(st: State, ev: Event)
    requires ev.InitEvent?
    ensures Apply(st, ev).counts.initDropped == st.counts.initDropped + One01(StartDropped()(st, ev))
  {}

  lemma NoStackNoKind(st: State, ev: Event, k: Kind)
    requires !ev.StackEvent?
    ensures KindNext(st.counts.kinds.Get(k), st.counts.kinds.Get(k), st, ev, k)
  {}

  lemma {:induction false} StackUnmatched(st: State, cpu: nat, raw: RawStack)
    requires Find(st.perCpu, cpu, raw.ts, raw.tid).None?
    ensures CountsNext(st.counts, OnStack(st, cpu, raw).counts, st, StackEvent(cpu, raw))
  {}

  lemma {:induction false} CountsStep(st: State, ev: Event)
    ensures CountsNext(st.counts, Apply(st, ev).counts, st, ev)
  {
    if ev.StackEvent? {
      if Find(st.perCpu, ev.cpu, ev.raw.ts, ev.raw.tid).Some? {
        GiveCounted(st, ev.cpu, ev.raw);
      } else {
        StackUnmatched(st, ev.cpu, ev.raw);
      }
    } else {
      OtherCounted(st, ev, Apply(st, ev).counts);
    }
  }

  lemma {:induction false} OtherCounted(st: State, ev: Event, next: Counts)
    requires !ev.StackEvent? && next == Apply(st, ev).counts
    ensures CountsNext(st.counts, next, st, ev)
  {
    CountersApart(st, ev);
    if ev.DoneEvent? {
      DoneCounted(st, ev);
    }
    if ev.InitEvent? {
      InitCounted(st, ev);
    }
    forall k ensures KindNext(st.counts.kinds.Get(k), next.kinds.Get(k), st, ev, k) {
      NoStackNoKind(st, ev, k);
    }
    assert !ev.DoneEvent? ==> IoNext(st.counts.io, st.counts.io, st, ev);
  }

  // ---- Whole runs -------------------------------------------------------------------------------

  ghost predicate KindCounted(c: KindCount, run: seq<Event>, asked: set<Kind>, switchCap: nat, readyCap: nat, k: Kind) {
    && c.byHeader == StepsThat(run, asked, switchCap, readyCap, ByHeader(k))
    && c.byPayload == StepsThat(run, asked, switchCap, readyCap, ByPayload(k))
    && c.kept == StepsThat(run, asked, switchCap, readyCap, KeptAs(k))
  }

  ghost predicate IoCounted(io: Completions, run: seq<Event>, asked: set<Kind>, switchCap: nat, readyCap: nat) {
    && io.withInit == StepsThat(run, asked, switchCap, readyCap, DoneWith(true))
    && io.withoutInit == StepsThat(run, asked, switchCap, readyCap, DoneWith(false))
    && io.found == StepsThat(run, asked, switchCap, readyCap, SlowWith(true))
    && io.noStack == StepsThat(run, asked, switchCap, readyCap, SlowWith(false))
    && io.noInit == StepsThat(run, asked, switchCap, readyCap, SlowUnseen())
  }

  lemma {:induction false} StepsNext(run: seq<Event>, asked: set<Kind>, switchCap: nat, readyCap: nat, did: (State, Event) -> bool)
    requires run != []
    ensures StepsThat(run, asked, switchCap, readyCap, did) == StepsThat(run[..|run| - 1], asked, switchCap, readyCap, did)
      + One01(did(Replay(run[..|run| - 1], asked, switchCap, readyCap), run[|run| - 1]))
  {}

  lemma {:induction false} IoCountedNext(was: Completions, next: Completions, run: seq<Event>, asked: set<Kind>, switchCap: nat, readyCap: nat)
    requires run != [] && IoCounted(was, run[..|run| - 1], asked, switchCap, readyCap)
    requires IoNext(was, next, Replay(run[..|run| - 1], asked, switchCap, readyCap), run[|run| - 1])
    ensures IoCounted(next, run, asked, switchCap, readyCap)
  {
    StepsNext(run, asked, switchCap, readyCap, DoneWith(true));
    StepsNext(run, asked, switchCap, readyCap, DoneWith(false));
    StepsNext(run, asked, switchCap, readyCap, SlowWith(true));
    StepsNext(run, asked, switchCap, readyCap, SlowWith(false));
    StepsNext(run, asked, switchCap, readyCap, SlowUnseen());
  }

  lemma {:induction false} KindCountedNext(was: KindCount, next: KindCount, run: seq<Event>, asked: set<Kind>, switchCap: nat, readyCap: nat, k: Kind)
    requires run != [] && KindCounted(was, run[..|run| - 1], asked, switchCap, readyCap, k)
    requires KindNext(was, next, Replay(run[..|run| - 1], asked, switchCap, readyCap), run[|run| - 1], k)
    ensures KindCounted(next, run, asked, switchCap, readyCap, k)
  {
    StepsNext(run, asked, switchCap, readyCap, ByHeader(k));
    StepsNext(run, asked, switchCap, readyCap, ByPayload(k));
    StepsNext(run, asked, switchCap, readyCap, KeptAs(k));
  }

  /** Over every run each counter is the number of steps that did what it counts. */
  lemma {:induction false} CountsExactly(run: seq<Event>, asked: set<Kind>, switchCap: nat, readyCap: nat, k: Kind)
    ensures var c := Replay(run, asked, switchCap, readyCap).counts;
      && KindCounted(c.kinds.Get(k), run, asked, switchCap, readyCap, k) && IoCounted(c.io, run, asked, switchCap, readyCap)
      && c.otherCpu == StepsThat(run, asked, switchCap, readyCap, FromElsewhere())
      && c.initDropped == StepsThat(run, asked, switchCap, readyCap, StartDropped())
  {
    if run != [] {
      var init, ev := run[..|run| - 1], run[|run| - 1];
      var was, next := Replay(init, asked, switchCap, readyCap).counts, Replay(run, asked, switchCap, readyCap).counts;
      CountsExactly(init, asked, switchCap, readyCap, k);
      CountsStep(Replay(init, asked, switchCap, readyCap), ev);
      KindCountedNext(was.kinds.Get(k), next.kinds.Get(k), run, asked, switchCap, readyCap, k);
      IoCountedNext(was.io, next.io, run, asked, switchCap, readyCap);
      StepsNext(run, asked, switchCap, readyCap, FromElsewhere());
      StepsNext(run, asked, switchCap, readyCap, StartDropped());
    }
  }
}
