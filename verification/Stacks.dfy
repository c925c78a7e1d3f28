/** Matching call stacks to the events they belong to. A stack arrives after its event, names the
    event's time and thread, and must never be handed to another event. */
module Stacks {
  import opened Trace
  import opened Seqs
  import DiskStuck

  const PENDING_PER_CPU: nat := 4
  const IO_INIT_CAP: nat := 65_536
  const SLOW_IO_CAP: nat := 4_096
  const FAULT_CAP: nat := 8_192
  /** Below this length a wait cannot make its thread stuck, so its stacks are let go. */
  const KEEP_WAIT: nat := DiskStuck.STUCK_MIN

  datatype Kind = CSwitch | Readied | DiskInit | HardFault

  /** What the stack of a pending event is wanted for. */
  datatype Want =
    | Ignore
    | ForDiskInit(irp: nat)
    | ForFault(start: int, tid: nat)
    | ForSwitchIn(tid: nat, since: int)
    | ForReadied(tid: nat, since: int)

  datatype Pending = Pending(ts: int, header: nat, payload: nat, kind: Kind, want: Want)

  datatype RawStack = RawStack(ts: int, pid: nat, tid: nat, kernel: seq<nat>, userFrames: nat)

  datatype Stack = Stack(pid: nat, frames: seq<nat>, user: bool)

  function FromRaw(r: RawStack): Stack { Stack(r.pid, r.kernel, r.userFrames > 0) }

  datatype IoStack = Found(stack: Stack) | NoStack | NoInit

  datatype SlowIo = SlowIo(end: int, irp: nat, what: IoStack)
  datatype FaultStack = FaultStack(start: int, end: int, tid: nat, stack: Stack)
  datatype SwitchInStack = SwitchInStack(ts: int, tid: nat, since: int, stack: Stack)
  datatype ReadyStack = ReadyStack(ts: int, tid: nat, since: int, stack: Stack)

  function SlowEnd(r: SlowIo): int { r.end }
  function FaultEnd(r: FaultStack): int { r.end }
  function SwitchInTs(r: SwitchInStack): int { r.ts }
  function ReadyStackTs(r: ReadyStack): int { r.ts }

  /** Matched stacks of one kind, told apart by which thread the stack event named: the one in the
      event's header or the one in its payload. `kept` is how many of them went into a queue. */
  datatype KindCount = KindCount(byHeader: nat, byPayload: nat, kept: nat) {
    function Stacks(): nat { byHeader + byPayload }
  }

  const NO_STACKS := KindCount(0, 0, 0)

  datatype Kinds = Kinds(cswitch: KindCount, readied: KindCount, diskInit: KindCount, hardFault: KindCount) {
    function Get(k: Kind): KindCount {
      match k case CSwitch => cswitch case Readied => readied case DiskInit => diskInit case HardFault => hardFault
    }

    function Total(): nat { cswitch.Stacks() + readied.Stacks() + diskInit.Stacks() + hardFault.Stacks() }

    function Set(k: Kind, c: KindCount): Kinds {
      match k
      case CSwitch => this.(cswitch := c)
      case Readied => this.(readied := c)
      case DiskInit => this.(diskInit := c)
      case HardFault => this.(hardFault := c)
    }
  }

  /** Completions with their start seen and without, and how the slow ones' stacks came out. */
  datatype Completions = Completions(withInit: nat, withoutInit: nat, found: nat, noStack: nat, noInit: nat)

  datatype Counts = Counts(
    kinds: Kinds, unmatched: nat, otherCpu: nat, overwritten: nat, initDropped: nat, io: Completions)
  {
    /** Every stack event that arrived. */
    function Total(): nat { kinds.Total() + unmatched }
  }

  const NO_COUNTS := Counts(Kinds(NO_STACKS, NO_STACKS, NO_STACKS, NO_STACKS), 0, 0, 0, 0, Completions(0, 0, 0, 0, 0))

  /** Per capped queue, the newest stamp among what it dropped for room. */
  datatype Lost = Lost(slowIo: Option<int>, faults: Option<int>, switchIns: Option<int>, readies: Option<int>)

  datatype State = State(
    asked: set<Kind>, switchCap: nat, readyCap: nat,
    perCpu: seq<seq<Pending>>,
    ioInit: map<nat, (int, Option<Stack>)>,
    slowIo: seq<SlowIo>, faults: seq<FaultStack>, switchIns: seq<SwitchInStack>, readies: seq<ReadyStack>,
    offAt: map<nat, (int, int)>,
    lost: Lost, counts: Counts)

  function Fresh(asked: set<Kind>, switchCap: nat, readyCap: nat): State {
    State(asked, switchCap, readyCap, [], map[], [], [], [], [], map[], Lost(None, None, None, None), NO_COUNTS)
  }

  predicate Worth(reason: int) { DiskWait(reason) || LockWait(reason) }

  // ---- Capped queues ----------------------------------------------------------------------------

  /** Drops from the front down to the cap (at least 1), noting the newest time dropped. */
  function Shrink<T>(q: seq<T>, cap: nat, ts: T -> int, lost: Option<int>): (seq<T>, Option<int>)
    decreases |q|
  {
    if |q| > Max(cap, 1) then Shrink(q[1..], cap, ts, LaterOf(lost, ts(q[0]))) else (q, lost)
  }

  method PushCapped<T>(q: seq<T>, item: T, cap: nat, ts: T -> int, lost: Option<int>) returns (q': seq<T>, lost': Option<int>)
    ensures (q', lost') == Shrink(q + [item], cap, ts, lost)
  {
    q', lost' := q + [item], lost;
    while |q'| > Max(cap, 1)
      invariant Shrink(q', cap, ts, lost') == Shrink(q + [item], cap, ts, lost)
      decreases |q'|
    {
      lost' := LaterOf(lost', ts(q'[0]));
      q' := q'[1..];
    }
  }

  /** A capped queue keeps its newest records... */
  lemma {:induction false} ShrinkKeepsNewest<T(!new)>(q: seq<T>, cap: nat, ts: T -> int, lost: Option<int>)
    ensures |Shrink(q, cap, ts, lost).0| == Min(|q|, Max(cap, 1))
    ensures var kept := Shrink(q, cap, ts, lost).0; kept == q[|q| - |kept|..]
    decreases |q|
  {
    if |q| > Max(cap, 1) {
      var rest := q[1..];
      ShrinkKeepsNewest(rest, cap, ts, LaterOf(lost, ts(q[0])));
      var n := |rest| - |Shrink(rest, cap, ts, LaterOf(lost, ts(q[0]))).0|;
      assert rest[n..] == q[n + 1..];
    }
  }

  /** ...and notes a time no earlier than any it dropped: everything after that is whole. */
  lemma {:induction false} ShrinkNotesLost<T(!new)>(q: seq<T>, cap: nat, ts: T -> int, lost: Option<int>, i: nat)
    requires i < |q| - Max(cap, 1)
    ensures var lost' := Shrink(q, cap, ts, lost).1;
      lost'.Some? && ts(q[i]) <= lost'.value && (lost.Some? ==> lost.value <= lost'.value)
    decreases |q|
  {
    var noted := LaterOf(lost, ts(q[0]));
    if i > 0 {
      ShrinkNotesLost(q[1..], cap, ts, noted, i - 1);
    } else if |q| - 1 > Max(cap, 1) {
      ShrinkNotesLost(q[1..], cap, ts, noted, 0);
    }
  }

  // ---- Pending slots ----------------------------------------------------------------------------

  /** Room for processor `n - 1`. */
  function Grow(perCpu: seq<seq<Pending>>, n: nat): seq<seq<Pending>> {
    if |perCpu| >= n then perCpu else perCpu + seq(n - |perCpu|, i => [])
  }

  function SlotsOf(perCpu: seq<seq<Pending>>, cpu: nat): seq<Pending> {
    if cpu < |perCpu| then perCpu[cpu] else []
  }

  /** The event pushed out of a full processor by one more. */
  function Evicts(perCpu: seq<seq<Pending>>, cpu: nat): Option<Pending> {
    var slots := SlotsOf(perCpu, cpu);
    if |slots| >= PENDING_PER_CPU then Some(slots[0]) else None
  }

  function PendSlots(perCpu: seq<seq<Pending>>, cpu: nat, p: Pending): seq<seq<Pending>> {
    var slots := SlotsOf(perCpu, cpu) + [p];
    Grow(perCpu, cpu + 1)[cpu := if Evicts(perCpu, cpu).Some? then slots[1..] else slots]
  }

  function Pend(st: State, cpu: nat, p: Pending): State {
    var gone := Evicts(st.perCpu, cpu);
    st.(perCpu := PendSlots(st.perCpu, cpu, p),
        counts := if gone.Some? && !gone.value.want.Ignore? then st.counts.(overwritten := st.counts.overwritten + 1) else st.counts)
  }

  /** The stack names the event's tick and its header's or its payload's thread. */
  predicate Hit(p: Pending, ts: int, tid: nat) {
    p.ts == ts && (p.header == tid || (p.payload == tid && tid != 0))
  }

  /** The first slot hit, or the number of slots. */
  function HitAt(slots: seq<Pending>, ts: int, tid: nat): (i: nat)
    ensures i <= |slots|
    ensures i < |slots| ==> Hit(slots[i], ts, tid)
    ensures forall j :: 0 <= j < i ==> !Hit(slots[j], ts, tid)
  {
    if slots == [] || Hit(slots[0], ts, tid) then 0 else 1 + HitAt(slots[1..], ts, tid)
  }

  /** The first processor with a hit, or the number of processors. */
  function CpuHit(perCpu: seq<seq<Pending>>, ts: int, tid: nat): (c: nat)
    ensures c <= |perCpu|
    ensures c < |perCpu| ==> HitAt(perCpu[c], ts, tid) < |perCpu[c]|
    ensures forall d :: 0 <= d < c ==> HitAt(perCpu[d], ts, tid) == |perCpu[d]|
  {
    if perCpu == [] || HitAt(perCpu[0], ts, tid) < |perCpu[0]| then 0 else 1 + CpuHit(perCpu[1..], ts, tid)
  }

  /** Where the event is, its own processor first. */
  function Find(perCpu: seq<seq<Pending>>, cpu: nat, ts: int, tid: nat): (at: Option<(nat, nat)>)
    ensures at.Some? ==> at.value.0 < |perCpu| && at.value.1 < |perCpu[at.value.0]| && Hit(perCpu[at.value.0][at.value.1], ts, tid)
  {
    if OnOwnCpu(perCpu, cpu, ts, tid) then Some((cpu, HitAt(perCpu[cpu], ts, tid)))
    else
      var c := CpuHit(perCpu, ts, tid);
      if c < |perCpu| then Some((c, HitAt(perCpu[c], ts, tid))) else None
  }

  /** Some event pending on this processor has the tick and one of its threads. */
  ghost predicate HitOn(perCpu: seq<seq<Pending>>, c: nat, ts: int, tid: nat) {
    c < |perCpu| && exists i :: 0 <= i < |perCpu[c]| && Hit(perCpu[c][i], ts, tid)
  }

  /** The search misses exactly when nothing pending fits. What it finds is the oldest fit of its
      processor, and on another than its own only when nothing fits there or on any before. */
  lemma FindMeaning(perCpu: seq<seq<Pending>>, cpu: nat, ts: int, tid: nat)
    ensures Find(perCpu, cpu, ts, tid).None? <==> forall c :: !HitOn(perCpu, c, ts, tid)
    ensures var at := Find(perCpu, cpu, ts, tid);
      at.Some? ==>
        && (forall i :: 0 <= i < at.value.1 ==> !Hit(perCpu[at.value.0][i], ts, tid))
        && (at.value.0 != cpu ==> !HitOn(perCpu, cpu, ts, tid) && forall c :: 0 <= c < at.value.0 ==> !HitOn(perCpu, c, ts, tid))
  {
    forall c: nat | c < |perCpu| ensures HitOn(perCpu, c, ts, tid) <==> HitAt(perCpu[c], ts, tid) < |perCpu[c]| {
      var i := HitAt(perCpu[c], ts, tid);
      assert i < |perCpu[c]| ==> Hit(perCpu[c][i], ts, tid);
    }
  }

  function Without(slots: seq<Pending>, i: nat): seq<Pending>
    requires i < |slots|
  {
    slots[..i] + slots[i + 1..]
  }

  function TakeSlot(perCpu: seq<seq<Pending>>, c: nat, i: nat): seq<seq<Pending>>
    requires c < |perCpu| && i < |perCpu[c]|
  {
    perCpu[c := Without(perCpu[c], i)]
  }

  // ---- The operations ---------------------------------------------------------------------------

  function OnDiskInit(st: State, ts: int, cpu: nat, header: nat, irp: nat, issuer: nat): State {
    if DiskInit !in st.asked then st
    else if irp == 0 then Pend(st, cpu, Pending(ts, header, issuer, DiskInit, Ignore))
    else if |st.ioInit| >= IO_INIT_CAP && irp !in st.ioInit then
      Pend(st.(counts := st.counts.(initDropped := st.counts.initDropped + 1)), cpu, Pending(ts, header, issuer, DiskInit, Ignore))
    else Pend(st.(ioInit := st.ioInit[irp := (ts, None)]), cpu, Pending(ts, header, issuer, DiskInit, ForDiskInit(irp)))
  }

  /** What is known of the issuing stack when the request completes. */
  function Issued(st: State, irp: nat): IoStack {
    if irp !in st.ioInit then NoInit
    else if st.ioInit[irp].1.Some? then Found(st.ioInit[irp].1.value)
    else NoStack
  }

  function CountDone(c: Completions, what: IoStack, slow: bool): Completions {
    var c := if what.NoInit? then c.(withoutInit := c.withoutInit + 1) else c.(withInit := c.withInit + 1);
    if !slow then c
    else
      match what
      case Found(_) => c.(found := c.found + 1)
      case NoStack => c.(noStack := c.noStack + 1)
      case NoInit => c.(noInit := c.noInit + 1)
  }

  function OnDiskDone(st: State, end: int, irp: nat, slow: bool): State {
    if DiskInit !in st.asked || irp == 0 then st
    else
      var what := Issued(st, irp);
      var st := st.(ioInit := st.ioInit - {irp}, counts := st.counts.(io := CountDone(st.counts.io, what, slow)));
      if !slow then st
      else
        var (q, lost) := Shrink(st.slowIo + [SlowIo(end, irp, what)], SLOW_IO_CAP, SlowEnd, st.lost.slowIo);
        st.(slowIo := q, lost := st.lost.(slowIo := lost))
  }

  function OnFault(st: State, ts: int, cpu: nat, header: nat, start: int, tid: nat): State {
    if HardFault !in st.asked then st
    else Pend(st, cpu, Pending(ts, header, tid, HardFault, if ts - start >= KEEP_WAIT then ForFault(start, tid) else Ignore))
  }

  /** Why the matcher would hold on to the stack that follows this switch, if it would. */
  function WantBack(st: State, sw: SwitchRec): Want {
    if sw.newTid in st.offAt && sw.newTid != 0 && sw.ts - st.offAt[sw.newTid].0 >= KEEP_WAIT && Worth(st.offAt[sw.newTid].1)
    then ForSwitchIn(sw.newTid, st.offAt[sw.newTid].0) else Ignore
  }

  function OnSwitch(st: State, cpu: nat, header: nat, sw: SwitchRec): State {
    if CSwitch !in st.asked && Readied !in st.asked then st
    else
      var want := WantBack(st, sw);
      var st := st.(offAt := st.offAt - {sw.newTid});
      var st := if CSwitch in st.asked then Pend(st, cpu, Pending(sw.ts, header, sw.newTid, CSwitch, want)) else st;
      if sw.oldState == STATE_WAITING && sw.oldTid != 0 then
        st.(offAt := st.offAt[sw.oldTid := (sw.ts, sw.oldReason)])
      else st
  }

  function WantReady(st: State, ts: int, tid: nat): Want {
    if tid in st.offAt && ts - st.offAt[tid].0 >= KEEP_WAIT && Worth(st.offAt[tid].1) then ForReadied(tid, st.offAt[tid].0) else Ignore
  }

  function OnReady(st: State, ts: int, cpu: nat, header: nat, tid: nat): State {
    if Readied !in st.asked then st
    else Pend(st, cpu, Pending(ts, header, tid, Readied, WantReady(st, ts, tid)))
  }

  /** Gives a matched stack to what it was wanted for; says whether it was kept. */
  function Keep(st: State, p: Pending, raw: RawStack): (State, bool) {
    match p.want
    case Ignore => (st, false)
    case ForDiskInit(irp) =>
      if irp in st.ioInit && st.ioInit[irp].0 == p.ts then
        (st.(ioInit := st.ioInit[irp := (p.ts, Some(FromRaw(raw)))]), true)
      else (st, false)
    case ForFault(start, tid) =>
      var (q, lost) := Shrink(st.faults + [FaultStack(start, p.ts, tid, FromRaw(raw))], FAULT_CAP, FaultEnd, st.lost.faults);
      (st.(faults := q, lost := st.lost.(faults := lost)), true)
    case ForSwitchIn(tid, since) =>
      var (q, lost) := Shrink(st.switchIns + [SwitchInStack(p.ts, tid, since, FromRaw(raw))], st.switchCap, SwitchInTs, st.lost.switchIns);
      (st.(switchIns := q, lost := st.lost.(switchIns := lost)), true)
    case ForReadied(tid, since) =>
      var (q, lost) := Shrink(st.readies + [ReadyStack(p.ts, tid, since, FromRaw(raw))], st.readyCap, ReadyStackTs, st.lost.readies);
      (st.(readies := q, lost := st.lost.(readies := lost)), true)
  }

  function Bump(k: KindCount, byHeader: bool, kept: bool): KindCount {
    KindCount(if byHeader then k.byHeader + 1 else k.byHeader,
              if byHeader then k.byPayload else k.byPayload + 1,
              if kept then k.kept + 1 else k.kept)
  }

  function CountMatched(c: Counts, kind: Kind, byHeader: bool, elsewhere: bool, kept: bool): Counts {
    c.(kinds := c.kinds.Set(kind, Bump(c.kinds.Get(kind), byHeader, kept)),
       otherCpu := if elsewhere then c.otherCpu + 1 else c.otherCpu)
  }

  predicate OnOwnCpu(perCpu: seq<seq<Pending>>, cpu: nat, ts: int, tid: nat) {
    cpu < |perCpu| && HitAt(perCpu[cpu], ts, tid) < |perCpu[cpu]|
  }

  /** The stack is given to the pending event found at `(c, i)`. */
  function Give(st: State, cpu: nat, raw: RawStack, c: nat, i: nat): State
    requires c < |st.perCpu| && i < |st.perCpu[c]|
  {
    var p := st.perCpu[c][i];
    var (st', kept) := Keep(st.(perCpu := TakeSlot(st.perCpu, c, i)), p, raw);
    st'.(counts := CountMatched(st.counts, p.kind, raw.tid == p.header, !OnOwnCpu(st.perCpu, cpu, raw.ts, raw.tid), kept))
  }

  function OnStack(st: State, cpu: nat, raw: RawStack): State {
    var at := Find(st.perCpu, cpu, raw.ts, raw.tid);
    if at.None? then st.(counts := st.counts.(unmatched := st.counts.unmatched + 1))
    else Give(st, cpu, raw, at.value.0, at.value.1)
  }

  /** The entries stamped `cut` or later. */
  function Retain<V>(m: map<nat, (int, V)>, cut: int): map<nat, (int, V)> {
    map k | k in m && m[k].0 >= cut :: m[k]
  }

  function Prune(st: State, latest: int, keep: int, switchKeep: int): State {
    var cut, switchCut := latest - keep, latest - switchKeep;
    st.(slowIo := DropOlder(st.slowIo, SlowEnd, cut),
        faults := DropOlder(st.faults, FaultEnd, cut),
        switchIns := DropOlder(st.switchIns, SwitchInTs, switchCut),
        readies := DropOlder(st.readies, ReadyStackTs, switchCut),
        ioInit := Retain(st.ioInit, cut),
        offAt := Retain(st.offAt, switchCut))
  }

  /** Looks an answer up by completion time and packet. A packet may have two: the later one counts. */
  function SlowIoStack(q: seq<SlowIo>, end: int, irp: nat): Option<IoStack> {
    var answer := Last(q, AnswerTo(end, irp));
    if answer.Some? then Some(answer.value.what) else None
  }

  function AnswerTo(end: int, irp: nat): SlowIo -> bool {
    (r: SlowIo) => r.end == end && r.irp == irp
  }

  // ---- Whole runs -------------------------------------------------------------------------------

  datatype Event =
    | InitEvent(ts: int, cpu: nat, header: nat, irp: nat, issuer: nat)
    | DoneEvent(end: int, irp: nat, slow: bool)
    | FaultEvent(ts: int, cpu: nat, header: nat, start: int, tid: nat)
    | SwitchEvent(cpu: nat, header: nat, sw: SwitchRec)
    | ReadyEvent(ts: int, cpu: nat, header: nat, tid: nat)
    | StackEvent(cpu: nat, raw: RawStack)
    | PruneEvent(latest: int, keep: int, switchKeep: int)

  function Apply(st: State, ev: Event): State {
    match ev
    case InitEvent(ts, cpu, header, irp, issuer) => OnDiskInit(st, ts, cpu, header, irp, issuer)
    case DoneEvent(end, irp, slow) => OnDiskDone(st, end, irp, slow)
    case FaultEvent(ts, cpu, header, start, tid) => OnFault(st, ts, cpu, header, start, tid)
    case SwitchEvent(cpu, header, sw) => OnSwitch(st, cpu, header, sw)
    case ReadyEvent(ts, cpu, header, tid) => OnReady(st, ts, cpu, header, tid)
    case StackEvent(cpu, raw) => OnStack(st, cpu, raw)
    case PruneEvent(latest, keep, switchKeep) => Prune(st, latest, keep, switchKeep)
  }

  function Replay(run: seq<Event>, asked: set<Kind>, switchCap: nat, readyCap: nat): State {
    if run == [] then Fresh(asked, switchCap, readyCap)
    else Apply(Replay(run[..|run| - 1], asked, switchCap, readyCap), run[|run| - 1])
  }

  // ---- Every stack is counted exactly once ------------------------------------------------------

  function StackEvents(run: seq<Event>): nat {
    if run == [] then 0 else StackEvents(run[..|run| - 1]) + if run[|run| - 1].StackEvent? then 1 else 0
  }

  ghost predicate Consistent(c: Counts) {
    && c.kinds.cswitch.kept <= c.kinds.cswitch.Stacks() && c.kinds.readied.kept <= c.kinds.readied.Stacks()
    && c.kinds.diskInit.kept <= c.kinds.diskInit.Stacks() && c.kinds.hardFault.kept <= c.kinds.hardFault.Stacks()
    && c.io.found + c.io.noStack <= c.io.withInit && c.io.noInit <= c.io.withoutInit
  }

  lemma MatchedTotal(c: Counts, kind: Kind, byHeader: bool, elsewhere: bool, kept: bool)
    ensures CountMatched(c, kind, byHeader, elsewhere, kept).Total() == c.Total() + 1
  {
    match kind case CSwitch => case Readied => case DiskInit => case HardFault =>
  }

  lemma MatchedConsistent(c: Counts, kind: Kind, byHeader: bool, elsewhere: bool, kept: bool)
    requires Consistent(c)
    ensures Consistent(CountMatched(c, kind, byHeader, elsewhere, kept))
  {
    match kind case CSwitch => case Readied => case DiskInit => case HardFault =>
  }

  lemma GiveCounts(st: State, cpu: nat, raw: RawStack, c: nat, i: nat)
    requires c < |st.perCpu| && i < |st.perCpu[c]|
    ensures Give(st, cpu, raw, c, i).counts.Total() == st.counts.Total() + 1
    ensures Give(st, cpu, raw, c, i).counts.unmatched == st.counts.unmatched
    ensures Consistent(st.counts) ==> Consistent(Give(st, cpu, raw, c, i).counts)
  {
    var p := st.perCpu[c][i];
    var kept := Keep(st.(perCpu := TakeSlot(st.perCpu, c, i)), p, raw).1;
    MatchedTotal(st.counts, p.kind, raw.tid == p.header, !OnOwnCpu(st.perCpu, cpu, raw.ts, raw.tid), kept);
    if Consistent(st.counts) {
      MatchedConsistent(st.counts, p.kind, raw.tid == p.header, !OnOwnCpu(st.perCpu, cpu, raw.ts, raw.tid), kept);
    }
  }

  lemma {:induction false} StepTotal(st: State, ev: Event)
    ensures Apply(st, ev).counts.Total() == st.counts.Total() + if ev.StackEvent? then 1 else 0
  {
    match ev
    case StackEvent(cpu, raw) =>
      var at := Find(st.perCpu, cpu, raw.ts, raw.tid);
      if at.Some? {
        GiveCounts(st, cpu, raw, at.value.0, at.value.1);
      }
    case _ =>
  }

  lemma DoneConsistent(st: State, end: int, irp: nat, slow: bool)
    requires Consistent(st.counts)
    ensures Consistent(OnDiskDone(st, end, irp, slow).counts)
  {
    assert OnDiskDone(st, end, irp, slow).counts.kinds == st.counts.kinds;
  }

  lemma {:induction false} StepConsistent(st: State, ev: Event)
    requires Consistent(st.counts)
    ensures Consistent(Apply(st, ev).counts)
  {
    match ev
    case StackEvent(cpu, raw) =>
      var at := Find(st.perCpu, cpu, raw.ts, raw.tid);
      if at.Some? {
        GiveCounts(st, cpu, raw, at.value.0, at.value.1);
      }
    case DoneEvent(end, irp, slow) => DoneConsistent(st, end, irp, slow);
    case _ =>
  }

  /** Every stack event is counted exactly once in the total. */
  lemma {:induction false} StacksCountedOnce(run: seq<Event>, asked: set<Kind>, switchCap: nat, readyCap: nat)
    ensures Replay(run, asked, switchCap, readyCap).counts.Total() == StackEvents(run)
  {
    if run != [] {
      StacksCountedOnce(run[..|run| - 1], asked, switchCap, readyCap);
      StepTotal(Replay(run[..|run| - 1], asked, switchCap, readyCap), run[|run| - 1]);
    }
  }

  /** No more stacks are kept than matched; slow completions are among the completions. */
  lemma {:induction false} CountsConsistent(run: seq<Event>, asked: set<Kind>, switchCap: nat, readyCap: nat)
    ensures Consistent(Replay(run, asked, switchCap, readyCap).counts)
  {
    if run != [] {
      CountsConsistent(run[..|run| - 1], asked, switchCap, readyCap);
      StepConsistent(Replay(run[..|run| - 1], asked, switchCap, readyCap), run[|run| - 1]);
    }
  }
}
