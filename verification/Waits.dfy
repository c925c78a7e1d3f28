/** The worst waits of a window: for each thread its longest time blocked and its longest time ready
    without a processor, from one pass over two merged streams. */
module Waits {
  import opened Trace
  import opened Seqs

  const MAX_THREADS: nat := 20_000
  const MAX_ROWS: nat := 512

  datatype ThreadWait = ThreadWait(
    tid: nat, ready: int, readyCpu: nat, readyFrom: int, readyTo: int,
    blocked: int, reason: int, wokenBy: Option<nat>)
  {
    function Worst(): int { Max(ready, blocked) }
  }

  function NoWait(tid: nat): ThreadWait {
    ThreadWait(tid, 0, 0, 0, 0, 0, 0, None)
  }

  // ---- The merged stream ------------------------------------------------------------------------

  datatype Step = SwitchStep(s: SwitchRec) | ReadyStep(r: ReadyRec) {
    function Ts(): int { match this case SwitchStep(s) => s.ts case ReadyStep(r) => r.ts }
  }

  /** In time order; a tie goes to the wake-up. */
  function Merge(sw: seq<SwitchRec>, rd: seq<ReadyRec>): seq<Step>
    decreases |sw| + |rd|
  {
    if sw == [] && rd == [] then []
    else if rd != [] && (sw == [] || rd[0].ts <= sw[0].ts) then [ReadyStep(rd[0])] + Merge(sw, rd[1..])
    else [SwitchStep(sw[0])] + Merge(sw[1..], rd)
  }

  method Merged(sw: seq<SwitchRec>, rd: seq<ReadyRec>, from: int, to: int) returns (out: seq<Step>)
    ensures out == Merge(Filter(sw, Within(SwitchTs, from, to)), Filter(rd, Within(ReadyTs, from, to)))
  {
    var sw, rd := Filter(sw, Within(SwitchTs, from, to)), Filter(rd, Within(ReadyTs, from, to));
    var i, j := 0, 0;
    out := [];
    while i < |sw| || j < |rd|
      invariant i <= |sw| && j <= |rd|
      invariant out + Merge(sw[i..], rd[j..]) == Merge(sw, rd)
      decreases |sw| - i + |rd| - j
    {
      MergeNext(sw, rd, i, j);
      if j < |rd| && (i >= |sw| || rd[j].ts <= sw[i].ts) {
        MoveOver(out, ReadyStep(rd[j]), Merge(sw[i..], rd[j + 1..]));
        out := out + [ReadyStep(rd[j])];
        j := j + 1;
      } else {
        MoveOver(out, SwitchStep(sw[i]), Merge(sw[i + 1..], rd[j..]));
        out := out + [SwitchStep(sw[i])];
        i := i + 1;
      }
    }
  }

  lemma MergeNext(sw: seq<SwitchRec>, rd: seq<ReadyRec>, i: nat, j: nat)
    requires i <= |sw| && j <= |rd| && (i < |sw| || j < |rd|)
    ensures Merge(sw[i..], rd[j..]) ==
      if j < |rd| && (i >= |sw| || rd[j].ts <= sw[i].ts) then [ReadyStep(rd[j])] + Merge(sw[i..], rd[j + 1..])
      else [SwitchStep(sw[i])] + Merge(sw[i + 1..], rd[j..])
  {
    if j < |rd| && (i >= |sw| || rd[j].ts <= sw[i].ts) {
      assert rd[j..][1..] == rd[j + 1..];
    } else {
      assert sw[i..][1..] == sw[i + 1..];
    }
  }

  lemma MoveOver<T>(out: seq<T>, x: T, rest: seq<T>)
    ensures out + ([x] + rest) == (out + [x]) + rest
  {}

  function SwitchesOf(steps: seq<Step>): seq<SwitchRec> {
    if steps == [] then []
    else (if steps[0].SwitchStep? then [steps[0].s] else []) + SwitchesOf(steps[1..])
  }

  function ReadiesOf(steps: seq<Step>): seq<ReadyRec> {
    if steps == [] then []
    else (if steps[0].ReadyStep? then [steps[0].r] else []) + ReadiesOf(steps[1..])
  }

  ghost predicate StepsOrdered(steps: seq<Step>) {
    forall i, j :: 0 <= i < j < |steps| ==> StepBefore(steps[i], steps[j])
  }

  lemma {:induction false} MergeMembers(sw: seq<SwitchRec>, rd: seq<ReadyRec>)
    ensures SwitchesOf(Merge(sw, rd)) == sw && ReadiesOf(Merge(sw, rd)) == rd
    ensures forall x :: x in Merge(sw, rd) ==> if x.SwitchStep? then x.s in sw else x.r in rd
    decreases |sw| + |rd|
  {
    var out := Merge(sw, rd);
    if sw == [] && rd == [] {
    } else if rd != [] && (sw == [] || rd[0].ts <= sw[0].ts) {
      MergeMembers(sw, rd[1..]);
      assert out[1..] == Merge(sw, rd[1..]);
    } else {
      MergeMembers(sw[1..], rd);
      assert out[1..] == Merge(sw[1..], rd);
    }
  }

  /** The merge is in time order, wake-ups first. */
  lemma {:induction false} MergeOrdered(sw: seq<SwitchRec>, rd: seq<ReadyRec>)
    requires TimeOrdered(sw, SwitchTs) && TimeOrdered(rd, ReadyTs)
    ensures StepsOrdered(Merge(sw, rd))
    decreases |sw| + |rd|
  {
    if sw == [] && rd == [] {
    } else if rd != [] && (sw == [] || rd[0].ts <= sw[0].ts) {
      MergeOrdered(sw, rd[1..]);
      MergeMembers(sw, rd[1..]);
      PutFirst(sw, rd, ReadyStep(rd[0]), Merge(sw, rd[1..]));
    } else {
      MergeOrdered(sw[1..], rd);
      MergeMembers(sw[1..], rd);
      PutFirst(sw, rd, SwitchStep(sw[0]), Merge(sw[1..], rd));
    }
  }

  predicate StepBefore(a: Step, b: Step) {
    a.Ts() < b.Ts() || (a.Ts() == b.Ts() && (a.ReadyStep? || b.SwitchStep?))
  }

  lemma PutFirst(sw: seq<SwitchRec>, rd: seq<ReadyRec>, x: Step, rest: seq<Step>)
    requires TimeOrdered(sw, SwitchTs) && TimeOrdered(rd, ReadyTs) && StepsOrdered(rest)
    requires forall y :: y in rest ==> if y.SwitchStep? then y.s in sw else y.r in rd
    requires if x.ReadyStep? then rd != [] && x.r == rd[0] && (sw == [] || x.r.ts <= sw[0].ts)
             else sw != [] && x.s == sw[0] && (rd == [] || x.s.ts < rd[0].ts)
    ensures StepsOrdered([x] + rest)
  {
    FirstIsLeast(sw, SwitchTs);
    FirstIsLeast(rd, ReadyTs);
    forall k | 0 <= k < |rest| ensures StepBefore(x, rest[k]) {
      var y := rest[k];
      assert y in rest;
      if y.SwitchStep? {
        assert SwitchTs(sw[0]) <= SwitchTs(y.s);
      } else {
        assert ReadyTs(rd[0]) <= ReadyTs(y.r);
      }
    }
  }

  lemma FirstIsLeast<T(!new)>(s: seq<T>, ts: T -> int)
    requires TimeOrdered(s, ts)
    ensures forall x :: x in s ==> ts(s[0]) <= ts(x)
  {}

  // ---- One thread's history ---------------------------------------------------------------------

  datatype Event =
    | Woken(ts: int, waker: Option<nat>)
    | In(ts: int, cpu: nat)
    | Out(ts: int, state: int, reason: int)
  {
    /** Switched off but still runnable: preempted, or queued behind others. */
    predicate Preempted() {
      Out? && (state == STATE_READY || state == STATE_STANDBY || state == STATE_DEFERRED_READY)
    }

    predicate IntoWait() { Out? && state == STATE_WAITING }
  }

  /** Runnable since, blocked since with the reason: what is known of a thread right now. */
  datatype Live = Live(readySince: Option<int>, blockedSince: Option<(int, int)>)

  const NOT_SEEN := Live(None, None)

  function Advance(l: Live, e: Event): Live {
    match e
    case Woken(ts, _) => Live(if l.readySince.Some? then l.readySince else Some(ts), None)
    case In(_, _) => NOT_SEEN
    case Out(ts, state, reason) =>
      if state == STATE_WAITING then Live(None, Some((ts, reason)))
      else if state == STATE_READY || state == STATE_STANDBY || state == STATE_DEFERRED_READY then Live(Some(ts), None)
      else NOT_SEEN
  }

  function Record(w: ThreadWait, l: Live, e: Event): ThreadWait {
    match e
    case Woken(ts, waker) =>
      if l.blockedSince.None? then w
      else
        var span := ts - l.blockedSince.value.0;
        if span > 0 && span > w.blocked then
          w.(blocked := span, reason := l.blockedSince.value.1, wokenBy := waker)
        else w
    case In(ts, cpu) =>
      if l.readySince.None? then w
      else
        var span := ts - l.readySince.value;
        if span > 0 && span > w.ready then
          w.(ready := span, readyCpu := cpu, readyFrom := l.readySince.value, readyTo := ts)
        else w
    case Out(_, _, _) => w
  }

  function LiveAfter(ev: seq<Event>): Live {
    if ev == [] then NOT_SEEN else Advance(LiveAfter(ev[..|ev| - 1]), ev[|ev| - 1])
  }

  function RowAfter(tid: nat, ev: seq<Event>): ThreadWait {
    if ev == [] then NoWait(tid)
    else
      var init := ev[..|ev| - 1];
      Record(RowAfter(tid, init), LiveAfter(init), ev[|ev| - 1])
  }

  // ---- What a row means -------------------------------------------------------------------------

  /** A wait that began at `k` and that the thread's very next event ended by waking it. */
  predicate BlockGap(ev: seq<Event>, k: nat) {
    k + 1 < |ev| && ev[k].IntoWait() && ev[k + 1].Woken?
  }

  function BlockSpan(ev: seq<Event>, k: nat): int
    requires BlockGap(ev, k)
  {
    ev[k + 1].ts - ev[k].ts
  }

  /** The first event making the thread runnable since its last reset. */
  predicate TurnsRunnable(ev: seq<Event>, i: nat) {
    && i < |ev|
    && (ev[i].Preempted() || (ev[i].Woken? && (i == 0 || !(ev[i - 1].Woken? || ev[i - 1].Preempted()))))
  }

  /** Runnable from `i` on: nothing but further wake-ups since. */
  predicate StillRunnable(ev: seq<Event>, i: nat, k: nat) {
    TurnsRunnable(ev, i) && i < k <= |ev| && forall j :: i < j < k ==> ev[j].Woken?
  }

  /** A stretch runnable from `i` until the switch-in at `k`. */
  predicate ReadyGap(ev: seq<Event>, i: nat, k: nat) {
    k < |ev| && StillRunnable(ev, i, k) && ev[k].In?
  }

  /** What is known right now, read off the history. */
  lemma {:induction false} LiveMeaning(ev: seq<Event>)
    ensures var l := LiveAfter(ev);
      && l.blockedSince == (if ev != [] && ev[|ev| - 1].IntoWait() then Some((ev[|ev| - 1].ts, ev[|ev| - 1].reason)) else None)
      && (l.readySince.Some? ==> exists i: nat :: StillRunnable(ev, i, |ev|) && ev[i].ts == l.readySince.value)
      && (forall i: nat :: StillRunnable(ev, i, |ev|) ==> l.readySince == Some(ev[i].ts))
  {
    if ev != [] {
      var n := |ev| - 1;
      var init, e := ev[..n], ev[n];
      LiveMeaning(init);
      forall i: nat ensures StillRunnable(ev, i, |ev|) <==> (if i == n then TurnsRunnable(ev, n) else StillRunnable(init, i, n) && e.Woken?) {
        RunnablePrefix(ev, i);
      }
      if e.Woken? && LiveAfter(init).readySince.Some? {
        var i: nat :| StillRunnable(init, i, n) && init[i].ts == LiveAfter(init).readySince.value;
        assert StillRunnable(ev, i, |ev|);
      } else if e.Woken? {
        if n > 0 && (ev[n - 1].Woken? || ev[n - 1].Preempted()) {
          var i := RunnableStart(init);
          assert false;
        }
        assert StillRunnable(ev, n, |ev|);
      } else if e.Preempted() {
        assert StillRunnable(ev, n, |ev|);
      }
    }
  }

  lemma RunnablePrefix(ev: seq<Event>, i: nat)
    requires ev != []
    ensures StillRunnable(ev, i, |ev|) <==>
      (if i == |ev| - 1 then TurnsRunnable(ev, i) else StillRunnable(ev[..|ev| - 1], i, |ev| - 1) && ev[|ev| - 1].Woken?)
  {
    var n := |ev| - 1;
    var init := ev[..n];
    if i < n {
      assert TurnsRunnable(ev, i) <==> TurnsRunnable(init, i);
      assert forall j :: i < j < n ==> ev[j] == init[j];
    }
  }

  /** A history ending in a wake-up or a preemption is runnable since some point. */
  lemma {:induction false} RunnableStart(ev: seq<Event>) returns (i: nat)
    requires ev != [] && (ev[|ev| - 1].Woken? || ev[|ev| - 1].Preempted())
    ensures StillRunnable(ev, i, |ev|)
  {
    i := |ev| - 1;
    while !TurnsRunnable(ev, i)
      invariant i < |ev| && (ev[i].Woken? || ev[i].Preempted()) && forall j :: i < j < |ev| ==> ev[j].Woken?
      decreases i
    {
      i := i - 1;
    }
  }

  /** `blocked` is the longest gap from a switch-off into a wait to the thread's very next event
      when that is a wake-up (0 if there is none of positive length), with that wait's reason and
      that wake-up's waker; the first of equals wins. */
  ghost predicate BlockedIsLongest(w: ThreadWait, ev: seq<Event>) {
    && w.blocked >= 0
    && (forall k: nat :: BlockGap(ev, k) ==> BlockSpan(ev, k) <= w.blocked)
    && (w.blocked > 0 ==> exists k: nat :: LongestBlock(w, ev, k))
  }

  ghost predicate LongestBlock(w: ThreadWait, ev: seq<Event>, k: nat) {
    && BlockGap(ev, k) && BlockSpan(ev, k) == w.blocked
    && w.reason == ev[k].reason && w.wokenBy == ev[k + 1].waker
    && forall j: nat :: j < k && BlockGap(ev, j) ==> BlockSpan(ev, j) < w.blocked
  }

  /** `ready` is the longest gap from the first event making the thread runnable since its last
      reset to its next switch-in, with where it ran; the first of equals wins. */
  ghost predicate ReadyIsLongest(w: ThreadWait, ev: seq<Event>) {
    && w.ready >= 0
    && (forall i: nat, k: nat :: ReadyGap(ev, i, k) ==> ev[k].ts - ev[i].ts <= w.ready)
    && (w.ready > 0 ==> exists i: nat, k: nat :: LongestReady(w, ev, i, k))
  }

  ghost predicate LongestReady(w: ThreadWait, ev: seq<Event>, i: nat, k: nat) {
    && ReadyGap(ev, i, k) && ev[k].ts - ev[i].ts == w.ready
    && w.readyFrom == ev[i].ts && w.readyTo == ev[k].ts && w.readyCpu == ev[k].cpu
    && forall i': nat, k': nat :: k' < k && ReadyGap(ev, i', k') ==> ev[k'].ts - ev[i'].ts < w.ready
  }

  lemma {:induction false} BlockedMeaning(tid: nat, ev: seq<Event>)
    ensures BlockedIsLongest(RowAfter(tid, ev), ev)
  {
    if ev != [] {
      var n := |ev| - 1;
      var init := ev[..n];
      BlockedMeaning(tid, init);
      LiveMeaning(init);
      var before, after := RowAfter(tid, init), RowAfter(tid, ev);
      assert forall k: nat :: BlockGap(init, k) ==> BlockGap(ev, k) && BlockSpan(ev, k) == BlockSpan(init, k);
      assert forall k: nat :: BlockGap(ev, k) ==> k == n - 1 || BlockGap(init, k);
      if after.blocked > before.blocked {
        assert LongestBlock(after, ev, n - 1);
      } else if before.blocked > 0 {
        var k: nat :| LongestBlock(before, init, k);
        assert LongestBlock(after, ev, k);
      }
    }
  }

  lemma {:induction false} ReadyMeaning(tid: nat, ev: seq<Event>)
    ensures ReadyIsLongest(RowAfter(tid, ev), ev)
  {
    if ev != [] {
      var n := |ev| - 1;
      var init := ev[..n];
      ReadyMeaning(tid, init);
      LiveMeaning(init);
      var before, after := RowAfter(tid, init), RowAfter(tid, ev);
      forall i: nat, k: nat ensures ReadyGap(ev, i, k) <==> ReadyGap(init, i, k) || (k == n && ev[n].In? && StillRunnable(init, i, n)) {
        GapPrefix(ev, i, k);
      }
      if after.ready > before.ready {
        var i: nat :| StillRunnable(init, i, n) && init[i].ts == LiveAfter(init).readySince.value;
        assert LongestReady(after, ev, i, n);
      } else if before.ready > 0 {
        var i: nat, k: nat :| LongestReady(before, init, i, k);
        StillLongest(before, after, ev, i, k);
      }
    }
  }

  /** A longest gap stays the longest through an event that does not beat it. */
  lemma StillLongest(before: ThreadWait, after: ThreadWait, ev: seq<Event>, i: nat, k: nat)
    requires ev != [] && LongestReady(before, ev[..|ev| - 1], i, k)
    requires after.ready == before.ready && after.readyFrom == before.readyFrom && after.readyTo == before.readyTo && after.readyCpu == before.readyCpu
    ensures LongestReady(after, ev, i, k)
  {
    forall i': nat, k': nat ensures k' < k ==> (ReadyGap(ev, i', k') <==> ReadyGap(ev[..|ev| - 1], i', k')) {
      GapPrefix(ev, i', k');
    }
    GapPrefix(ev, i, k);
  }

  lemma GapPrefix(ev: seq<Event>, i: nat, k: nat)
    requires ev != []
    ensures var n := |ev| - 1;
      ReadyGap(ev, i, k) <==> ReadyGap(ev[..n], i, k) || (k == n && ev[n].In? && StillRunnable(ev[..n], i, n))
  {
    var n := |ev| - 1;
    var init := ev[..n];
    if i < n {
      assert TurnsRunnable(ev, i) <==> TurnsRunnable(init, i);
      assert forall j :: i < j < n ==> ev[j] == init[j];
    }
  }

  // ---- A terminated thread's id starts over -----------------------------------------------------

  /** Whichever half had the longer wait of each kind; the earlier half on a tie. */
  function Combine(a: ThreadWait, b: ThreadWait): ThreadWait {
    var w := if b.ready > a.ready then
        a.(ready := b.ready, readyCpu := b.readyCpu, readyFrom := b.readyFrom, readyTo := b.readyTo) else a;
    if b.blocked > a.blocked then w.(blocked := b.blocked, reason := b.reason, wokenBy := b.wokenBy) else w
  }

  /** A termination splits the computation into two independent halves. */
  lemma {:induction false} TerminationSplits(tid: nat, a: seq<Event>, end: Event, b: seq<Event>)
    requires end.Out? && end.state == STATE_TERMINATED
    ensures LiveAfter(a + [end] + b) == LiveAfter(b)
    ensures RowAfter(tid, a + [end] + b) == Combine(RowAfter(tid, a), RowAfter(tid, b))
  {
    var ev := a + [end] + b;
    if b == [] {
      assert ev == a + [end] && ev[..|ev| - 1] == a;
      BlockedMeaning(tid, a);
      ReadyMeaning(tid, a);
    } else {
      var init := b[..|b| - 1];
      assert ev[..|ev| - 1] == a + [end] + init;
      TerminationSplits(tid, a, end, init);
    }
  }

  // ---- The pass ---------------------------------------------------------------------------------

  /** One thing that happens to one thread. */
  type Item = (nat, Event)

  function ItemsOf(step: Step): seq<Item> {
    match step
    case ReadyStep(r) => if r.tid == IDLE_TID then [] else [(r.tid, Woken(r.ts, r.Waker()))]
    case SwitchStep(s) =>
      (if s.newTid == IDLE_TID then [] else [(s.newTid, In(s.ts, s.cpu))])
      + (if s.oldTid == IDLE_TID then [] else [(s.oldTid, Out(s.ts, s.oldState, s.oldReason))])
  }

  function Items(steps: seq<Step>): seq<Item> {
    if steps == [] then [] else Items(steps[..|steps| - 1]) + ItemsOf(steps[|steps| - 1])
  }

  /** One thread's history, out of everybody's. */
  function HistoryOf(items: seq<Item>, tid: nat): seq<Event> {
    if items == [] then []
    else
      var before, last := HistoryOf(items[..|items| - 1], tid), items[|items| - 1];
      if last.0 == tid then before + [last.1] else before
  }

  function Threads(items: seq<Item>): set<nat> {
    set item | item in items :: item.0
  }

  function LiveOf(live: map<nat, Live>, tid: nat): Live {
    if tid in live then live[tid] else NOT_SEEN
  }

  function RowOf(worst: map<nat, ThreadWait>, tid: nat): ThreadWait {
    if tid in worst then worst[tid] else NoWait(tid)
  }

  /** The maps hold exactly what every thread's own history says. */
  ghost predicate Agrees(live: map<nat, Live>, worst: map<nat, ThreadWait>, items: seq<Item>) {
    && (forall tid: nat :: LiveOf(live, tid) == LiveAfter(HistoryOf(items, tid)))
    && (forall tid: nat :: RowOf(worst, tid) == RowAfter(tid, HistoryOf(items, tid)))
  }

  lemma AgreesNext(live: map<nat, Live>, worst: map<nat, ThreadWait>, items: seq<Item>,
                   live': map<nat, Live>, worst': map<nat, ThreadWait>, tid: nat, e: Event)
    requires Agrees(live, worst, items)
    requires LiveOf(live', tid) == Advance(LiveOf(live, tid), e)
    requires RowOf(worst', tid) == Record(RowOf(worst, tid), LiveOf(live, tid), e)
    requires forall t: nat :: t != tid ==> LiveOf(live', t) == LiveOf(live, t) && RowOf(worst', t) == RowOf(worst, t)
    ensures Agrees(live', worst', items + [(tid, e)])
  {
    forall t: nat ensures LiveOf(live', t) == LiveAfter(HistoryOf(items + [(tid, e)], t)) {
      HistoryNext(items, tid, e, t);
      assert LiveOf(live, t) == LiveAfter(HistoryOf(items, t));
    }
    forall t: nat ensures RowOf(worst', t) == RowAfter(t, HistoryOf(items + [(tid, e)], t)) {
      HistoryNext(items, tid, e, t);
      assert LiveOf(live, t) == LiveAfter(HistoryOf(items, t));
      assert RowOf(worst, t) == RowAfter(t, HistoryOf(items, t));
    }
  }

  lemma HistoryNext(items: seq<Item>, tid: nat, e: Event, t: nat)
    ensures var h, next := HistoryOf(items, t), HistoryOf(items + [(tid, e)], t);
      if t == tid then next == h + [e] && LiveAfter(next) == Advance(LiveAfter(h), e) && RowAfter(t, next) == Record(RowAfter(t, h), LiveAfter(h), e)
      else next == h
  {
    var items' := items + [(tid, e)];
    assert items'[..|items'| - 1] == items;
    var h := HistoryOf(items, t);
    assert (h + [e])[..|h|] == h;
  }

  // ---- Whom there is a place for ----------------------------------------------------------------

  predicate Terminates(e: Event) { e.Out? && e.state == STATE_TERMINATED }

  /** The threads that have a place in the map: each gets one with its first event while there are any
      left, and gives it back when it terminates. */
  function Places(items: seq<Item>): set<nat> {
    if items == [] then {}
    else
      var before, (tid, e) := Places(items[..|items| - 1]), items[|items| - 1];
      if Terminates(e) then before - {tid}
      else if tid in before || |before| < MAX_THREADS then before + {tid}
      else before
  }

  /** An event of a thread without a place while all are taken. */
  predicate Missed(places: set<nat>, item: Item) {
    !Terminates(item.1) && item.0 !in places && |places| >= MAX_THREADS
  }

  /** The events the pass hears: all but those. */
  function Heard(items: seq<Item>): seq<Item> {
    if items == [] then []
    else
      var init, last := items[..|items| - 1], items[|items| - 1];
      Heard(init) + if Missed(Places(init), last) then [] else [last]
  }

  lemma HeardNext(items: seq<Item>, item: Item)
    ensures Heard(items + [item]) == if Missed(Places(items), item) then Heard(items) else Heard(items) + [item]
    ensures Places(items + [item]) == (if Terminates(item.1) then Places(items) - {item.0}
      else if Missed(Places(items), item) then Places(items)
      else Places(items) + {item.0})
  {
    assert (items + [item])[..|items|] == items;
  }

  /** The `k`th event is missed. */
  predicate MissedAt(items: seq<Item>, k: nat)
    requires k < |items|
  {
    Missed(Places(items[..k]), items[k])
  }

  ghost predicate NoneMissed(items: seq<Item>) {
    forall k: nat :: k < |items| ==> !MissedAt(items, k)
  }

  lemma NoneMissedNext(items: seq<Item>, item: Item)
    ensures NoneMissed(items + [item]) <==> NoneMissed(items) && !Missed(Places(items), item)
  {
    var all := items + [item];
    assert all[..|items|] == items;
    forall k: nat | k < |items| ensures MissedAt(all, k) <==> MissedAt(items, k) {
      assert all[..k] == items[..k] && all[k] == items[k];
    }
    assert MissedAt(all, |items|) <==> Missed(Places(items), item);
  }

  lemma {:induction false} HeardShorter(items: seq<Item>)
    ensures |Heard(items)| <= |items|
  {
    if items != [] {
      HeardShorter(items[..|items| - 1]);
    }
  }

  /** Nothing is missed exactly when no thread without a place has an event while all are taken. */
  lemma {:induction false} NothingMissedExactly(items: seq<Item>)
    ensures Heard(items) == items <==> NoneMissed(items)
  {
    if items != [] {
      var init, last := items[..|items| - 1], items[|items| - 1];
      assert items == init + [last];
      NothingMissedExactly(init);
      NoneMissedNext(init, last);
      HeardNext(init, last);
      HeardShorter(init);
      if !Missed(Places(init), last) {
        assert (Heard(init) + [last])[..|Heard(init)|] == Heard(init);
      }
    }
  }

  lemma {:induction false} PlacesWithin(items: seq<Item>)
    ensures Places(items) <= Threads(items)
  {
    if items != [] {
      var init, last := items[..|items| - 1], items[|items| - 1];
      PlacesWithin(init);
      assert items == init + [last];
      assert last in items && forall item :: item in init ==> item in items;
      ThreadsWithin(init, items);
    }
  }

  lemma ThreadsWithin(few: seq<Item>, many: seq<Item>)
    requires forall item :: item in few ==> item in many
    ensures Threads(few) <= Threads(many)
  {
    forall tid | tid in Threads(few) ensures tid in Threads(many) {
      var item :| item in few && item.0 == tid;
      assert item in many;
    }
  }

  /** In particular when the window has no more threads than places. */
  lemma FewThreadsAllHeard(items: seq<Item>)
    requires |Threads(items)| <= MAX_THREADS
    ensures Heard(items) == items
  {
    forall k: nat | k < |items| ensures !MissedAt(items, k) {
      PlacesWithin(items[..k]);
      ThreadsWithin(items[..k], items);
      assert items[k] in items;
      if items[k].0 !in Places(items[..k]) {
        SubsetSmaller(Places(items[..k]), Threads(items) - {items[k].0});
      }
    }
    NothingMissedExactly(items);
  }

  lemma SubsetSmaller<T>(a: set<T>, b: set<T>)
    requires a <= b
    ensures |a| <= |b|
  {
    assert b == a + (b - a);
  }

  predicate HasRoom(live: map<nat, Live>, tid: nat) {
    |live| < MAX_THREADS || tid in live
  }

  /** The maps hold a place for whom there is one, and exactly what every thread's heard history says. */
  ghost predicate Holds(live: map<nat, Live>, worst: map<nat, ThreadWait>, items: seq<Item>) {
    live.Keys == Places(items) && Agrees(live, worst, Heard(items))
  }

  lemma HoldsMissed(live: map<nat, Live>, worst: map<nat, ThreadWait>, items: seq<Item>, tid: nat, e: Event)
    requires Holds(live, worst, items) && !HasRoom(live, tid) && !Terminates(e)
    ensures Holds(live, worst, items + [(tid, e)])
  {
    assert |live| == |live.Keys|;
    HeardNext(items, (tid, e));
  }

  lemma HoldsNext(live: map<nat, Live>, worst: map<nat, ThreadWait>, items: seq<Item>,
                  live': map<nat, Live>, worst': map<nat, ThreadWait>, tid: nat, e: Event)
    requires Holds(live, worst, items)
    requires if Terminates(e) then live'.Keys == live.Keys - {tid} else HasRoom(live, tid) && live'.Keys == live.Keys + {tid}
    requires LiveOf(live', tid) == Advance(LiveOf(live, tid), e)
    requires RowOf(worst', tid) == Record(RowOf(worst, tid), LiveOf(live, tid), e)
    requires forall t: nat :: t != tid ==> LiveOf(live', t) == LiveOf(live, t) && RowOf(worst', t) == RowOf(worst, t)
    ensures Holds(live', worst', items + [(tid, e)])
  {
    assert |live| == |live.Keys|;
    HeardNext(items, (tid, e));
    AgreesNext(live, worst, Heard(items), live', worst', tid, e);
  }

  /** One thread's entries change, as its event says. */
  lemma HoldsSet(live: map<nat, Live>, worst: map<nat, ThreadWait>, items: seq<Item>,
                 worst': map<nat, ThreadWait>, tid: nat, e: Event, state: Live)
    requires Holds(live, worst, items) && HasRoom(live, tid) && !Terminates(e)
    requires state == Advance(LiveOf(live, tid), e)
    requires worst' == worst || worst' == worst[tid := RowOf(worst', tid)]
    requires RowOf(worst', tid) == Record(RowOf(worst, tid), LiveOf(live, tid), e)
    ensures Holds(live[tid := state], worst', items + [(tid, e)])
  {
    HoldsNext(live, worst, items, live[tid := state], worst', tid, e);
  }

  lemma HoldsDropped(live: map<nat, Live>, worst: map<nat, ThreadWait>, items: seq<Item>, tid: nat, e: Event)
    requires Holds(live, worst, items) && Terminates(e)
    ensures Holds(live - {tid}, worst, items + [(tid, e)])
  {
    HoldsNext(live, worst, items, live - {tid}, worst, tid, e);
  }

  predicate Tagged(worst: map<nat, ThreadWait>) {
    forall tid :: tid in worst ==> worst[tid].tid == tid
  }

  /** A wake-up. */
  method OnReady(live: map<nat, Live>, worst: map<nat, ThreadWait>, r: ReadyRec, ghost items: seq<Item>)
    returns (live': map<nat, Live>, worst': map<nat, ThreadWait>)
    requires r.tid != IDLE_TID && Tagged(worst) && Holds(live, worst, items)
    ensures Tagged(worst') && Holds(live', worst', items + [(r.tid, Woken(r.ts, r.Waker()))])
  {
    live', worst' := live, worst;
    if !HasRoom(live, r.tid) {
      HoldsMissed(live, worst, items, r.tid, Woken(r.ts, r.Waker()));
      return;
    }
    var state := LiveOf(live, r.tid);
    var now := Live(if state.readySince.Some? then state.readySince else Some(r.ts), None);
    live' := live[r.tid := now];
    if state.blockedSince.Some? {
      var (since, reason) := state.blockedSince.value;
      var span := r.ts - since;
      var w := RowOf(worst, r.tid);
      if span > 0 && span > w.blocked {
        w := w.(blocked := span, reason := reason, wokenBy := r.Waker());
      }
      worst' := worst[r.tid := w];
    }
    HoldsSet(live, worst, items, worst', r.tid, Woken(r.ts, r.Waker()), now);
  }

  /** A thread gets a processor. */
  method OnIn(live: map<nat, Live>, worst: map<nat, ThreadWait>, s: SwitchRec, ghost items: seq<Item>)
    returns (live': map<nat, Live>, worst': map<nat, ThreadWait>)
    requires s.newTid != IDLE_TID && Tagged(worst) && Holds(live, worst, items)
    ensures Tagged(worst') && Holds(live', worst', items + [(s.newTid, In(s.ts, s.cpu))])
  {
    live', worst' := live, worst;
    if !HasRoom(live, s.newTid) {
      HoldsMissed(live, worst, items, s.newTid, In(s.ts, s.cpu));
      return;
    }
    var wasReady := LiveOf(live, s.newTid).readySince;
    live' := live[s.newTid := NOT_SEEN];
    if wasReady.Some? {
      var span := s.ts - wasReady.value;
      var w := RowOf(worst, s.newTid);
      if span > 0 && span > w.ready {
        w := w.(ready := span, readyCpu := s.cpu, readyFrom := wasReady.value, readyTo := s.ts);
      }
      worst' := worst[s.newTid := w];
    }
    HoldsSet(live, worst, items, worst', s.newTid, In(s.ts, s.cpu), NOT_SEEN);
  }

  /** A thread loses its processor. */
  method OnOut(live: map<nat, Live>, ghost worst: map<nat, ThreadWait>, s: SwitchRec, ghost items: seq<Item>)
    returns (live': map<nat, Live>)
    requires s.oldTid != IDLE_TID && Holds(live, worst, items)
    ensures Holds(live', worst, items + [(s.oldTid, Out(s.ts, s.oldState, s.oldReason))])
  {
    ghost var e := Out(s.ts, s.oldState, s.oldReason);
    if s.oldState == STATE_TERMINATED {
      live' := live - {s.oldTid};
      HoldsDropped(live, worst, items, s.oldTid, e);
    } else if !HasRoom(live, s.oldTid) {
      live' := live;
      HoldsMissed(live, worst, items, s.oldTid, e);
    } else {
      var state :=
        if s.oldState == STATE_WAITING then Live(None, Some((s.ts, s.oldReason)))
        else if s.oldState == STATE_READY || s.oldState == STATE_STANDBY || s.oldState == STATE_DEFERRED_READY then Live(Some(s.ts), None)
        else NOT_SEEN;
      live' := live[s.oldTid := state];
      HoldsSet(live, worst, items, worst, s.oldTid, e, state);
    }
  }

  function RowKey(w: ThreadWait): Key { (-w.Worst(), w.tid) }

  /** A wait worth a row has one, unless the rows are full of worse ones. */
  predicate Listed(rows: seq<ThreadWait>, w: ThreadWait) {
    w.Worst() > 0 ==> w in rows || (|rows| == MAX_ROWS && KeyBefore(rows[MAX_ROWS - 1], w))
  }

  /** The rows: exactly the threads that waited at all, worst first and cut at the cap. */
  ghost predicate Ranked(rows: seq<ThreadWait>, items: seq<Item>) {
    && |rows| <= MAX_ROWS
    && (forall w :: w in rows ==> w == RowAfter(w.tid, HistoryOf(items, w.tid)) && w.Worst() > 0)
    && (forall a, b :: 0 <= a < b < |rows| ==> KeyBefore(rows[a], rows[b]))
    && (forall tid: nat :: Listed(rows, RowAfter(tid, HistoryOf(items, tid))))
  }

  predicate KeyBefore(a: ThreadWait, b: ThreadWait) {
    a.Worst() > b.Worst() || (a.Worst() == b.Worst() && a.tid < b.tid)
  }

  /** A switch takes one thread on and another off, the idle thread apart. */
  method OnSwitch(live: map<nat, Live>, worst: map<nat, ThreadWait>, s: SwitchRec, ghost items: seq<Item>)
    returns (live': map<nat, Live>, worst': map<nat, ThreadWait>)
    requires Tagged(worst) && Holds(live, worst, items)
    ensures Tagged(worst') && Holds(live', worst', items + ItemsOf(SwitchStep(s)))
  {
    live', worst' := live, worst;
    ghost var seen := items;
    if s.newTid != IDLE_TID {
      live', worst' := OnIn(live, worst, s, items);
      seen := items + [(s.newTid, In(s.ts, s.cpu))];
    }
    if s.oldTid == IDLE_TID {
      assert items + ItemsOf(SwitchStep(s)) == seen;
      return;
    }
    assert items + ItemsOf(SwitchStep(s)) == seen + [(s.oldTid, Out(s.ts, s.oldState, s.oldReason))];
    live' := OnOut(live', worst', s, seen);
  }

  /** One step of the merged stream. */
  method Absorb(live: map<nat, Live>, worst: map<nat, ThreadWait>, step: Step, ghost items: seq<Item>)
    returns (live': map<nat, Live>, worst': map<nat, ThreadWait>)
    requires Tagged(worst) && Holds(live, worst, items)
    ensures Tagged(worst') && Holds(live', worst', items + ItemsOf(step))
  {
    match step {
      case ReadyStep(r) =>
        if r.tid == IDLE_TID {
          live', worst' := live, worst;
          assert items + ItemsOf(step) == items;
        } else {
          live', worst' := OnReady(live, worst, r, items);
        }
      case SwitchStep(s) =>
        live', worst' := OnSwitch(live, worst, s, items);
    }
  }

  method ReplaySteps(steps: seq<Step>) returns (live: map<nat, Live>, worst: map<nat, ThreadWait>)
    ensures Tagged(worst) && Holds(live, worst, Items(steps))
  {
    live, worst := map[], map[];
    for i := 0 to |steps|
      invariant Tagged(worst) && Holds(live, worst, Items(steps[..i]))
    {
      assert steps[..i + 1][..i] == steps[..i];
      live, worst := Absorb(live, worst, steps[i], Items(steps[..i]));
    }
    assert steps[..|steps|] == steps;
  }

  lemma RowsRanked(rows: seq<ThreadWait>, live: map<nat, Live>, worst: map<nat, ThreadWait>, items: seq<Item>)
    requires Agrees(live, worst, items) && Tagged(worst) && |rows| <= MAX_ROWS
    requires forall w :: w in rows ==> w.tid in worst && w == worst[w.tid] && w.Worst() > 0
    requires forall a, b :: 0 <= a < b < |rows| ==> KeyBefore(rows[a], rows[b])
    requires forall tid :: tid in worst ==> Listed(rows, worst[tid])
    ensures Ranked(rows, items)
  {
    forall tid: nat ensures Listed(rows, RowAfter(tid, HistoryOf(items, tid))) {
      assert RowOf(worst, tid) == RowAfter(tid, HistoryOf(items, tid));
    }
    forall w | w in rows ensures w == RowAfter(w.tid, HistoryOf(items, w.tid)) {
      assert RowOf(worst, w.tid) == RowAfter(w.tid, HistoryOf(items, w.tid));
    }
  }

  // ---- What the rows tell -----------------------------------------------------------------------

  /** What one step has of a thread. */
  function EventsIn(step: Step, tid: nat): seq<Event> {
    match step
    case ReadyStep(r) => if r.tid == tid then [Woken(r.ts, r.Waker())] else []
    case SwitchStep(s) =>
      (if s.newTid == tid then [In(s.ts, s.cpu)] else []) + if s.oldTid == tid then [Out(s.ts, s.oldState, s.oldReason)] else []
  }

  /** What the stream has of it. */
  function EventsOf(steps: seq<Step>, tid: nat): seq<Event> {
    if steps == [] then [] else EventsOf(steps[..|steps| - 1], tid) + EventsIn(steps[|steps| - 1], tid)
  }

  /** What the pass is given when this happens to that thread: nothing of the idle thread. */
  function ItemOf(who: nat, e: Event): seq<Item> { if who == IDLE_TID then [] else [(who, e)] }

  lemma OneHistory(items: seq<Item>, who: nat, e: Event, tid: nat)
    ensures HistoryOf(items + ItemOf(who, e), tid) == HistoryOf(items, tid) + if who == tid && tid != IDLE_TID then [e] else []
  {
    HistoryNext(items, who, e, tid);
    assert items + [] == items && HistoryOf(items, tid) + [] == HistoryOf(items, tid);
  }

  lemma ItemsSplit(items: seq<Item>, s: SwitchRec)
    ensures items + ItemsOf(SwitchStep(s))
         == items + ItemOf(s.newTid, In(s.ts, s.cpu)) + ItemOf(s.oldTid, Out(s.ts, s.oldState, s.oldReason))
  {}

  lemma {:induction false} StepHistory(items: seq<Item>, step: Step, tid: nat)
    ensures HistoryOf(items + ItemsOf(step), tid) == HistoryOf(items, tid) + if tid == IDLE_TID then [] else EventsIn(step, tid)
  {
    match step
    case ReadyStep(r) =>
      OneHistory(items, r.tid, Woken(r.ts, r.Waker()), tid);
    case SwitchStep(s) =>
      var on := items + ItemOf(s.newTid, In(s.ts, s.cpu));
      OneHistory(items, s.newTid, In(s.ts, s.cpu), tid);
      OneHistory(on, s.oldTid, Out(s.ts, s.oldState, s.oldReason), tid);
      ItemsSplit(items, s);
  }

  /** A thread's history is what the stream has of it; the idle thread has none. */
  lemma {:induction false} HistoryExactly(steps: seq<Step>, tid: nat)
    ensures HistoryOf(Items(steps), tid) == if tid == IDLE_TID then [] else EventsOf(steps, tid)
  {
    if steps != [] {
      HistoryExactly(steps[..|steps| - 1], tid);
      StepHistory(Items(steps[..|steps| - 1]), steps[|steps| - 1], tid);
    }
  }

  /** The thread was blocked, or ready without a processor, for this long at one time. */
  ghost predicate WaitedOnce(ev: seq<Event>, span: int) {
    || (exists k: nat :: BlockGap(ev, k) && BlockSpan(ev, k) == span)
    || exists i: nat, k: nat :: ReadyGap(ev, i, k) && ev[k].ts - ev[i].ts == span
  }

  /** Each row is its thread's longest waits and there is one; the worst of them orders the rows; and a
      thread that waited at all has one, unless there are 512 no better. */
  ghost predicate RowsTell(rows: seq<ThreadWait>, steps: seq<Step>) {
    && |rows| <= 512
    && (forall w :: w in rows ==>
          && w.tid != 0 && (w.blocked > 0 || w.ready > 0)
          && BlockedIsLongest(w, EventsOf(steps, w.tid)) && ReadyIsLongest(w, EventsOf(steps, w.tid)))
    && (forall a, b :: 0 <= a < b < |rows| ==> Precedes(rows[a], rows[b]))
    && (forall tid: nat, span :: tid != 0 && span > 0 && WaitedOnce(EventsOf(steps, tid), span) ==> HasRow(rows, tid, span))
  }

  /** Longer blocked or ready than the other was, or as long and of a smaller thread id. */
  predicate Precedes(a: ThreadWait, b: ThreadWait) {
    var longest := Max(a.blocked, a.ready);
    && b.blocked <= longest && b.ready <= longest
    && (b.blocked == longest || b.ready == longest ==> a.tid < b.tid)
  }

  ghost predicate HasRow(rows: seq<ThreadWait>, tid: nat, span: int) {
    || (exists w :: w in rows && w.tid == tid && (span <= w.blocked || span <= w.ready))
    || (|rows| == 512 && forall w :: w in rows ==> span <= w.blocked || span <= w.ready)
  }

  lemma LastRowLeast(rows: seq<ThreadWait>, w: ThreadWait)
    requires (forall a, b :: 0 <= a < b < |rows| ==> KeyBefore(rows[a], rows[b])) && w in rows
    ensures rows[|rows| - 1].Worst() <= w.Worst()
  {
    var k :| 0 <= k < |rows| && rows[k] == w;
    assert k < |rows| - 1 ==> KeyBefore(rows[k], rows[|rows| - 1]);
  }

  lemma ListedHasRow(rows: seq<ThreadWait>, items: seq<Item>, tid: nat, ev: seq<Event>, span: int)
    requires Ranked(rows, items) && HistoryOf(items, tid) == ev && span > 0 && WaitedOnce(ev, span)
    ensures HasRow(rows, tid, span)
  {
    var row := RowAfter(tid, ev);
    BlockedMeaning(tid, ev);
    ReadyMeaning(tid, ev);
    RowTagged(tid, ev);
    assert Listed(rows, row);
    assert span <= row.blocked || span <= row.ready;
    if row !in rows {
      forall w | w in rows ensures span <= w.blocked || span <= w.ready {
        LastRowLeast(rows, w);
      }
    }
  }

  lemma {:induction false} RowTagged(tid: nat, ev: seq<Event>)
    ensures RowAfter(tid, ev).tid == tid
  {
    if ev != [] {
      RowTagged(tid, ev[..|ev| - 1]);
    }
  }

  /** What the rows tell of the stream, when all of it was heard. */
  lemma {:induction false} RowsExactly(rows: seq<ThreadWait>, steps: seq<Step>)
    requires Ranked(rows, Items(steps))
    ensures RowsTell(rows, steps)
  {
    forall w | w in rows
      ensures w.tid != 0 && (w.blocked > 0 || w.ready > 0)
      ensures BlockedIsLongest(w, EventsOf(steps, w.tid)) && ReadyIsLongest(w, EventsOf(steps, w.tid))
    {
      HistoryExactly(steps, w.tid);
      BlockedMeaning(w.tid, EventsOf(steps, w.tid));
      ReadyMeaning(w.tid, EventsOf(steps, w.tid));
      assert w == RowAfter(w.tid, HistoryOf(Items(steps), w.tid));
    }
    forall a, b | 0 <= a < b < |rows| ensures Precedes(rows[a], rows[b]) {
      assert KeyBefore(rows[a], rows[b]);
    }
    forall tid: nat, span | tid != 0 && span > 0 && WaitedOnce(EventsOf(steps, tid), span) ensures HasRow(rows, tid, span) {
      HistoryExactly(steps, tid);
      ListedHasRow(rows, Items(steps), tid, EventsOf(steps, tid), span);
    }
  }

  /** The events of the window, each under the thread it happened to. */
  ghost function WindowItems(sw: seq<SwitchRec>, rd: seq<ReadyRec>, from: int, to: int): seq<Item> {
    Items(WindowSteps(sw, rd, from, to))
  }

  ghost function WindowSteps(sw: seq<SwitchRec>, rd: seq<ReadyRec>, from: int, to: int): seq<Step> {
    Merge(Filter(sw, Within(SwitchTs, from, to)), Filter(rd, Within(ReadyTs, from, to)))
  }

  /** Every row is its thread's own worst waits in the window, over what the pass heard of it: over
      all of it when the window has no more threads than there are places. */
  method Waits(sw: seq<SwitchRec>, rd: seq<ReadyRec>, from: int, to: int) returns (rows: seq<ThreadWait>)
    ensures Ranked(rows, Heard(WindowItems(sw, rd, from, to)))
    ensures |Threads(WindowItems(sw, rd, from, to))| <= MAX_THREADS ==>
      Ranked(rows, WindowItems(sw, rd, from, to)) && RowsTell(rows, WindowSteps(sw, rd, from, to))
  {
    var steps := Merged(sw, rd, from, to);
    var live, worst := ReplaySteps(steps);
    rows := Rank(worst);
    RowsRanked(rows, live, worst, Heard(Items(steps)));
    if |Threads(Items(steps))| <= MAX_THREADS {
      FewThreadsAllHeard(Items(steps));
      RowsExactly(rows, steps);
    }
  }

  /** The rows worth showing, out of a map walked in any order. */
  method Rank(worst: map<nat, ThreadWait>) returns (rows: seq<ThreadWait>)
    requires Tagged(worst)
    ensures |rows| <= MAX_ROWS
    ensures forall w :: w in rows ==> w.tid in worst && w == worst[w.tid] && w.Worst() > 0
    ensures forall a, b :: 0 <= a < b < |rows| ==> KeyBefore(rows[a], rows[b])
    ensures forall tid :: tid in worst ==> Listed(rows, worst[tid])
  {
    var all: seq<ThreadWait> := [];
    var left := worst.Keys;
    while left != {}
      invariant left <= worst.Keys
      invariant forall w :: w in all ==> w.tid in worst && w.tid !in left && w == worst[w.tid] && w.Worst() > 0
      invariant forall tid :: tid in worst && tid !in left && worst[tid].Worst() > 0 ==> worst[tid] in all
      invariant forall a, b :: 0 <= a < b < |all| ==> all[a].tid != all[b].tid
      decreases left
    {
      var tid :| tid in left;
      left := left - {tid};
      if worst[tid].Worst() > 0 {
        forall a | 0 <= a < |all| ensures all[a].tid != tid { assert all[a] in all; }
        all := all + [worst[tid]];
      }
    }
    var sorted := SortBy(all, RowKey);
    rows := if |sorted| > MAX_ROWS then sorted[..MAX_ROWS] else sorted;
    SortedRows(all);
    CutRows(sorted, rows);
  }

  lemma SortedRows(all: seq<ThreadWait>)
    requires forall a, b :: 0 <= a < b < |all| ==> all[a].tid != all[b].tid
    ensures forall w :: w in SortBy(all, RowKey) <==> w in all
    ensures forall a, b :: 0 <= a < b < |SortBy(all, RowKey)| ==> KeyBefore(SortBy(all, RowKey)[a], SortBy(all, RowKey)[b])
  {
    SortByMeaning(all, RowKey);
    SortedStrictly(all, RowKey);
  }

  lemma CutRows(sorted: seq<ThreadWait>, rows: seq<ThreadWait>)
    requires forall a, b :: 0 <= a < b < |sorted| ==> KeyBefore(sorted[a], sorted[b])
    requires rows == if |sorted| > MAX_ROWS then sorted[..MAX_ROWS] else sorted
    ensures forall w :: w in rows ==> w in sorted
    ensures forall a, b :: 0 <= a < b < |rows| ==> KeyBefore(rows[a], rows[b])
    ensures forall w :: w in sorted ==> Listed(rows, w)
  {
    forall w | w in sorted ensures Listed(rows, w) {
      var k :| 0 <= k < |sorted| && sorted[k] == w;
      assert k < |rows| ==> rows[k] == sorted[k];
    }
  }
}
