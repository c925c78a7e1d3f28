/** Why a measuring thread was late, and what a whole incident of late wake-ups comes to. */
module Probes {
  import opened Trace
  import opened Seqs
  import opened Occupancy

  /** One late wake-up: due at `start`, ran at `end`. `cpu` is where the probe is pinned, if it is. */
  datatype Window = Window(tid: nat, cpu: Option<nat>, start: int, end: int)

  datatype Outcome =
    | ReadiedLate(delay: int)
    | ReadyNotRun(waited: int, instead: RanInstead)
    | RanThenBlocked(reason: int)
    | NoVerdict

  /** How late still counts as on time. */
  function Slack(len: int): int { Max(MS, len / 20) }

  /** The last switch that put the thread on a processor, within the slack of the window. */
  function RanAt(sw: seq<SwitchRec>, w: Window): Option<SwitchRec> {
    Last(sw, RanIn(w))
  }

  function RanIn(w: Window): SwitchRec -> bool {
    (s: SwitchRec) => s.newTid == w.tid && w.start - Slack(w.end - w.start) < s.ts <= w.end + Slack(w.end - w.start)
  }

  predicate InRange(w: Window, r: ReadyRec) {
    var slack := Slack(w.end - w.start);
    r.tid == w.tid && w.start - slack <= r.ts <= w.end + slack
  }

  /** The first wake-up record of the thread in range. */
  function FirstReady(rd: seq<ReadyRec>, w: Window): Option<ReadyRec> {
    if rd == [] then None
    else
      var before := FirstReady(rd[..|rd| - 1], w);
      if before.Some? then before
      else if InRange(w, rd[|rd| - 1]) then Some(rd[|rd| - 1])
      else None
  }

  /** The last time it was switched off into a wait strictly inside `(from, to)`. */
  function LastBlocked(sw: seq<SwitchRec>, tid: nat, from: int, to: int): Option<SwitchRec> {
    Last(sw, BlockedIn(tid, from, to))
  }

  function BlockedIn(tid: nat, from: int, to: int): SwitchRec -> bool {
    (s: SwitchRec) => s.oldTid == tid && s.oldState == STATE_WAITING && from < s.ts < to
  }

  /** The judgement before it is asked what ran instead; a queued thread waited `[from, to)` on
      `cpu`, where that is known. */
  datatype Judgement =
    | Late(delay: int)
    | Queued(from: int, to: int, cpu: Option<nat>)
    | Blocked(reason: int)
    | Unjudged

  function Judge(sw: seq<SwitchRec>, rd: seq<ReadyRec>, w: Window): Judgement {
    if w.end <= w.start then Unjudged
    else
      var ran, ready := RanAt(sw, w), FirstReady(rd, w);
      if ready.None? then Unjudged
      else if ready.value.ts > w.start + Slack(w.end - w.start) then Late(ready.value.ts - w.start)
      else
        var off := LastBlocked(sw, w.tid, ready.value.ts, w.end);
        if off.Some? then Blocked(off.value.oldReason)
        else
          Queued(ready.value.ts,
                 if ran.Some? then ran.value.ts else w.end,
                 if w.cpu.Some? then w.cpu else if ran.Some? then Some(ran.value.cpu) else None)
  }

  /** Left in the queue on a processor idle for nine tenths of the wait. */
  predicate QueuedOnIdle(sw: seq<SwitchRec>, j: Judgement) {
    && j.Queued? && j.cpu.Some? && j.from < j.to
    && 10 * TicksOf(sw, j.cpu.value, j.from, j.to, IDLE_TID) >= 9 * (j.to - j.from)
  }

  /** What an outcome must say, given the judgement. */
  ghost predicate Reports(sw: seq<SwitchRec>, j: Judgement, tid: nat, o: Outcome) {
    match j
    case Late(delay) => o == ReadiedLate(delay)
    case Blocked(reason) => o == RanThenBlocked(reason)
    case Unjudged => o == NoVerdict
    case Queued(from, to, cpu) =>
      && o.ReadyNotRun? && o.waited == Max(to - from, 0)
      && (o.instead.Idle? <==> QueuedOnIdle(sw, j))
      && (o.instead.Thread? <==> cpu.Some? && from < to && !QueuedOnIdle(sw, j) && SomeoneElse(sw, cpu.value, from, to, tid))
      && (o.instead.Thread? ==>
            && o.instead.tid != 0 && o.instead.tid != tid && 0 < o.instead.held
            && o.instead.held == TicksOf(sw, cpu.value, from, to, o.instead.tid)
            && (forall t: nat :: t != 0 && t != tid ==> TicksOf(sw, cpu.value, from, to, t) <= o.instead.held)
            && NewestOnto(sw, cpu.value, to, o.instead.tid).Some?
            && o.instead.prio == NewestOnto(sw, cpu.value, to, o.instead.tid).value.newPrio)
  }

  method ClassifyProbe(sw: seq<SwitchRec>, rd: seq<ReadyRec>, w: Window) returns (o: Outcome)
    requires TimeOrdered(sw, SwitchTs)
    ensures Reports(sw, Judge(sw, rd, w), w.tid, o)
  {
    if w.end <= w.start {
      return NoVerdict;
    }
    var slack := Slack(w.end - w.start);
    var ran, ready := RanAt(sw, w), FirstReady(rd, w);
    if ready.None? {
      return NoVerdict;
    }
    if ready.value.ts > w.start + slack {
      return ReadiedLate(ready.value.ts - w.start);
    }
    var off := LastBlocked(sw, w.tid, ready.value.ts, w.end);
    if off.Some? {
      return RanThenBlocked(off.value.oldReason);
    }
    var cpu := if w.cpu.Some? then w.cpu else if ran.Some? then Some(ran.value.cpu) else None;
    var ranAt := if ran.Some? then ran.value.ts else w.end;
    var instead := Unknown;
    if cpu.Some? {
      instead := HeldBy(sw, cpu.value, ready.value.ts, ranAt, w.tid);
    }
    o := ReadyNotRun(Max(ranAt - ready.value.ts, 0), instead);
  }

  // ---- The tally --------------------------------------------------------------------------------

  datatype Verdict = NotWoken | LeftQueued | WasBlocked | Mixed

  /** One word for all the windows, if those that could be judged say the same. */
  function OverallOf(late: nat, queued: nat, blocked: nat): Option<Verdict> {
    if late == 0 && queued == 0 && blocked == 0 then None
    else if queued == 0 && blocked == 0 then Some(NotWoken)
    else if late == 0 && blocked == 0 then Some(LeftQueued)
    else if late == 0 && queued == 0 then Some(WasBlocked)
    else Some(Mixed)
  }

  /** A thread that ran instead, with its priority and for how long. */
  type Holder = (nat, int, int)

  function HolderKey(h: Holder): Key { (-h.2, 0) }

  datatype Tally = Tally(
    late: nat, queued: nat, blocked: nat, unknown: nat, onIdleCpu: nat,
    worstDelay: int, instead: seq<Holder>, reasons: seq<int>)

  /** The tally with one more outcome in it. */
  function Add(t: Tally, o: Outcome): Tally {
    match o
    case ReadiedLate(delay) => t.(late := t.late + 1, worstDelay := Max(t.worstDelay, delay))
    case ReadyNotRun(_, Idle) => t.(queued := t.queued + 1, onIdleCpu := t.onIdleCpu + 1)
    case ReadyNotRun(_, Thread(tid, prio, held)) => t.(queued := t.queued + 1, instead := t.instead + [(tid, prio, held)])
    case ReadyNotRun(_, Unknown) => t.(queued := t.queued + 1)
    case RanThenBlocked(reason) =>
      t.(blocked := t.blocked + 1, reasons := if reason in t.reasons then t.reasons else t.reasons + [reason])
    case NoVerdict => t.(unknown := t.unknown + 1)
  }

  function AddAll(os: seq<Outcome>): Tally {
    if os == [] then Tally(0, 0, 0, 0, 0, 0, [], []) else Add(AddAll(os[..|os| - 1]), os[|os| - 1])
  }

  /** The worst holders first, at most eight. */
  function Worst8(holders: seq<Holder>): seq<Holder> {
    var sorted := SortBy(holders, HolderKey);
    sorted[..Min(8, |sorted|)]
  }

  class ProbeVerdict {
    var late: nat
    var queued: nat
    var blocked: nat
    var unknown: nat
    var onIdleCpu: nat
    var worstDelay: int
    var instead: seq<Holder>
    var reasons: seq<int>

    function View(): Tally
      reads this
    {
      Tally(late, queued, blocked, unknown, onIdleCpu, worstDelay, instead, reasons)
    }

    constructor ()
      ensures View() == Tally(0, 0, 0, 0, 0, 0, [], [])
    {
      late, queued, blocked, unknown, onIdleCpu, worstDelay := 0, 0, 0, 0, 0, 0;
      instead, reasons := [], [];
    }

    method Push(o: Outcome)
      modifies this
      ensures View() == Add(old(View()), o)
    {
      match o
      case ReadiedLate(delay) =>
        late := late + 1;
        worstDelay := Max(worstDelay, delay);
      case ReadyNotRun(_, ran) =>
        queued := queued + 1;
        match ran {
          case Idle => onIdleCpu := onIdleCpu + 1;
          case Thread(tid, prio, held) => instead := instead + [(tid, prio, held)];
          case Unknown =>
        }
      case RanThenBlocked(reason) =>
        blocked := blocked + 1;
        if reason !in reasons {
          reasons := reasons + [reason];
        }
      case NoVerdict => unknown := unknown + 1;
    }

    method Rank()
      modifies this`instead
      ensures instead == Worst8(old(instead))
    {
      instead := SortBy(instead, HolderKey);
      if |instead| > 8 {
        instead := instead[..8];
      }
    }

    function Overall(): Option<Verdict>
      reads this
    {
      OverallOf(late, queued, blocked)
    }
  }

  function IsLate(sw: seq<SwitchRec>, rd: seq<ReadyRec>): Window -> bool {
    (w: Window) => Judge(sw, rd, w).Late?
  }

  function IsQueued(sw: seq<SwitchRec>, rd: seq<ReadyRec>): Window -> bool {
    (w: Window) => Judge(sw, rd, w).Queued?
  }

  function IsBlocked(sw: seq<SwitchRec>, rd: seq<ReadyRec>): Window -> bool {
    (w: Window) => Judge(sw, rd, w).Blocked?
  }

  function IsUnjudged(sw: seq<SwitchRec>, rd: seq<ReadyRec>): Window -> bool {
    (w: Window) => Judge(sw, rd, w).Unjudged?
  }

  function IsQueuedOnIdle(sw: seq<SwitchRec>, rd: seq<ReadyRec>): Window -> bool {
    (w: Window) => QueuedOnIdle(sw, Judge(sw, rd, w))
  }

  ghost predicate HeldIn(sw: seq<SwitchRec>, j: Judgement, tid: nat, h: Holder) {
    && j.Queued? && j.cpu.Some?
    && h.2 == TicksOf(sw, j.cpu.value, j.from, j.to, h.0) && h.2 > 0 && h.0 != 0 && h.0 != tid
  }

  /** A named holder really had a processor some queued thread was waiting for. */
  ghost predicate Held(sw: seq<SwitchRec>, rd: seq<ReadyRec>, windows: seq<Window>, h: Holder) {
    exists w :: w in windows && HeldIn(sw, Judge(sw, rd, w), w.tid, h)
  }

  /** The tally of a list of windows: each counted once, under its own judgement. */
  ghost predicate Tallies(v: Tally, sw: seq<SwitchRec>, rd: seq<ReadyRec>, windows: seq<Window>) {
    && v.late == |Filter(windows, IsLate(sw, rd))|
    && v.queued == |Filter(windows, IsQueued(sw, rd))|
    && v.blocked == |Filter(windows, IsBlocked(sw, rd))|
    && v.unknown == |Filter(windows, IsUnjudged(sw, rd))|
    && v.onIdleCpu == |Filter(windows, IsQueuedOnIdle(sw, rd))|
    && WorstDelay(v.worstDelay, sw, rd, windows)
    && (forall reason :: reason in v.reasons <==> exists w :: w in windows && Judge(sw, rd, w) == Blocked(reason))
    && (forall h :: h in v.instead ==> Held(sw, rd, windows, h))
  }

  /** The longest lateness among the late ones, or 0. */
  ghost predicate WorstDelay(worst: int, sw: seq<SwitchRec>, rd: seq<ReadyRec>, windows: seq<Window>) {
    && (worst == 0 || exists w :: w in windows && Judge(sw, rd, w) == Late(worst))
    && forall w :: w in windows && Judge(sw, rd, w).Late? ==> Judge(sw, rd, w).delay <= worst
  }

  lemma TallyNext(v: Tally, sw: seq<SwitchRec>, rd: seq<ReadyRec>, windows: seq<Window>, w: Window, o: Outcome)
    requires Tallies(v, sw, rd, windows) && Reports(sw, Judge(sw, rd, w), w.tid, o)
    ensures Tallies(Add(v, o), sw, rd, windows + [w])
  {
    FilterSnoc(windows, w, IsLate(sw, rd));
    FilterSnoc(windows, w, IsQueued(sw, rd));
    FilterSnoc(windows, w, IsBlocked(sw, rd));
    FilterSnoc(windows, w, IsUnjudged(sw, rd));
    FilterSnoc(windows, w, IsQueuedOnIdle(sw, rd));
    WorstNext(v.worstDelay, sw, rd, windows, w);
    ReasonsNext(v, sw, rd, windows, w, o);
    HoldersNext(v, sw, rd, windows, w, o);
  }

  lemma WorstNext(worst: int, sw: seq<SwitchRec>, rd: seq<ReadyRec>, windows: seq<Window>, w: Window)
    requires WorstDelay(worst, sw, rd, windows)
    ensures var j := Judge(sw, rd, w);
      WorstDelay(if j.Late? then Max(worst, j.delay) else worst, sw, rd, windows + [w])
  {
    var j := Judge(sw, rd, w);
    assert forall x :: x in windows + [w] <==> x in windows || x == w;
    if worst != 0 {
      var x :| x in windows && Judge(sw, rd, x) == Late(worst);
      assert x in windows + [w];
    }
    assert w in windows + [w];
  }

  lemma ReasonsNext(v: Tally, sw: seq<SwitchRec>, rd: seq<ReadyRec>, windows: seq<Window>, w: Window, o: Outcome)
    requires forall reason :: reason in v.reasons <==> exists x :: x in windows && Judge(sw, rd, x) == Blocked(reason)
    requires Reports(sw, Judge(sw, rd, w), w.tid, o)
    ensures forall reason :: reason in Add(v, o).reasons <==> exists x :: x in windows + [w] && Judge(sw, rd, x) == Blocked(reason)
  {
    forall reason
      ensures reason in Add(v, o).reasons <==> exists x :: x in windows + [w] && Judge(sw, rd, x) == Blocked(reason) {
      if x :| x in windows && Judge(sw, rd, x) == Blocked(reason) {
        assert x in windows + [w];
      }
      assert w in windows + [w];
    }
  }

  lemma HoldersNext(v: Tally, sw: seq<SwitchRec>, rd: seq<ReadyRec>, windows: seq<Window>, w: Window, o: Outcome)
    requires forall h :: h in v.instead ==> Held(sw, rd, windows, h)
    requires Reports(sw, Judge(sw, rd, w), w.tid, o)
    ensures forall h :: h in Add(v, o).instead ==> Held(sw, rd, windows + [w], h)
  {
    forall h | h in Add(v, o).instead ensures Held(sw, rd, windows + [w], h) {
      if h in v.instead {
        var x :| x in windows && HeldIn(sw, Judge(sw, rd, x), x.tid, h);
        assert x in windows + [w];
      } else {
        assert HeldIn(sw, Judge(sw, rd, w), w.tid, h);
        assert w in windows + [w];
      }
    }
  }

  /** One outcome per window, in order, each reporting its window's judgement. */
  ghost predicate OutcomesOf(os: seq<Outcome>, sw: seq<SwitchRec>, rd: seq<ReadyRec>, windows: seq<Window>) {
    |os| == |windows| && forall i :: 0 <= i < |os| ==> Reports(sw, Judge(sw, rd, windows[i]), windows[i].tid, os[i])
  }

  lemma OutcomesNext(os: seq<Outcome>, sw: seq<SwitchRec>, rd: seq<ReadyRec>, windows: seq<Window>, w: Window, o: Outcome)
    requires OutcomesOf(os, sw, rd, windows) && Reports(sw, Judge(sw, rd, w), w.tid, o)
    ensures OutcomesOf(os + [o], sw, rd, windows + [w]) && AddAll(os + [o]) == Add(AddAll(os), o)
  {
    assert (os + [o])[..|os|] == os;
  }

  lemma Worst8Ordered(holders: seq<Holder>)
    ensures SortedBy(Worst8(holders), HolderKey) && forall h :: h in Worst8(holders) ==> h in holders
  {
    SortByMeaning(holders, HolderKey);
  }

  method ClassifyAll(sw: seq<SwitchRec>, rd: seq<ReadyRec>, windows: seq<Window>)
    returns (v: ProbeVerdict, ghost os: seq<Outcome>)
    requires TimeOrdered(sw, SwitchTs)
    ensures fresh(v) && Tallies(v.View(), sw, rd, windows)
    ensures OutcomesOf(os, sw, rd, windows) && v.View() == AddAll(os)
  {
    v := new ProbeVerdict();
    os := [];
    for i := 0 to |windows|
      invariant fresh(v) && Tallies(v.View(), sw, rd, windows[..i])
      invariant OutcomesOf(os, sw, rd, windows[..i]) && v.View() == AddAll(os)
    {
      var w := windows[i];
      assert windows[..i + 1] == windows[..i] + [w];
      var o := ClassifyProbe(sw, rd, w);
      TallyNext(v.View(), sw, rd, windows[..i], w, o);
      OutcomesNext(os, sw, rd, windows[..i], w, o);
      v.Push(o);
      os := os + [o];
    }
    assert windows[..|windows|] == windows;
  }

  /** Cutting the list of holders leaves every count as it was. */
  lemma TopTallies(v: Tally, sw: seq<SwitchRec>, rd: seq<ReadyRec>, windows: seq<Window>)
    requires Tallies(v, sw, rd, windows)
    ensures Tallies(v.(instead := Worst8(v.instead)), sw, rd, windows)
  {
    Worst8Ordered(v.instead);
  }

  /** Classifies every window and adds the outcomes up; the holders end up worst first, at most 8. */
  method JudgeProbes(sw: seq<SwitchRec>, rd: seq<ReadyRec>, windows: seq<Window>) returns (v: ProbeVerdict)
    requires TimeOrdered(sw, SwitchTs)
    ensures fresh(v) && Tallies(v.View(), sw, rd, windows)
    ensures v.late + v.queued + v.blocked + v.unknown == |windows| && v.onIdleCpu <= v.queued
    ensures SortedBy(v.instead, HolderKey) && |v.instead| <= 8
    ensures exists os :: OutcomesOf(os, sw, rd, windows) && v.View() == AddAll(os).(instead := Worst8(AddAll(os).instead))
    ensures TimeOrdered(rd, ReadyTs) ==> Claims(v.Overall(), sw, rd, windows)
  {
    if TimeOrdered(rd, ReadyTs) {
      OverallExactly(sw, rd, windows);
    }
    ghost var os;
    v, os := ClassifyAll(sw, rd, windows);
    Worst8Ordered(v.instead);
    TopTallies(v.View(), sw, rd, windows);
    v.Rank();
    assert v.View() == AddAll(os).(instead := Worst8(AddAll(os).instead));
    EachOnce(sw, rd, windows);
  }

  /** Every window falls under exactly one judgement. */
  lemma {:induction false} EachOnce(sw: seq<SwitchRec>, rd: seq<ReadyRec>, windows: seq<Window>)
    ensures |Filter(windows, IsLate(sw, rd))| + |Filter(windows, IsQueued(sw, rd))|
      + |Filter(windows, IsBlocked(sw, rd))| + |Filter(windows, IsUnjudged(sw, rd))| == |windows|
    ensures |Filter(windows, IsQueuedOnIdle(sw, rd))| <= |Filter(windows, IsQueued(sw, rd))|
  {
    if windows != [] {
      EachOnce(sw, rd, windows[..|windows| - 1]);
    }
  }

  // ---- What a judgement claims ------------------------------------------------------------------

  /** The longer of a millisecond and a twentieth of the window. */
  lemma SlackExactly(len: int)
    ensures Slack(len) >= MS && Slack(len) >= len / 20 && (Slack(len) == MS || Slack(len) == len / 20)
  {}

  /** A wake-up of the thread no further from the window than the slack. */
  ghost predicate WokenNear(rd: seq<ReadyRec>, w: Window, r: ReadyRec) {
    && r in rd && r.tid == w.tid
    && w.start <= r.ts + Slack(w.end - w.start) && r.ts <= w.end + Slack(w.end - w.start)
  }

  /** Enough is recorded to judge the window: it has length and some wake-up near it. */
  ghost predicate Judgeable(rd: seq<ReadyRec>, w: Window) {
    w.start < w.end && exists r :: WokenNear(rd, w, r)
  }

  /** The earliest wake-up near the window was at `ready`. */
  ghost predicate FirstWoken(rd: seq<ReadyRec>, w: Window, ready: int) {
    (exists r :: WokenNear(rd, w, r) && r.ts == ready) && forall r :: WokenNear(rd, w, r) ==> ready <= r.ts
  }

  /** No recorded wake-up near the window came before the slack after it was due had passed. */
  ghost predicate WokenTooLate(rd: seq<ReadyRec>, w: Window) {
    forall r :: WokenNear(rd, w, r) ==> r.ts > w.start + Slack(w.end - w.start)
  }

  /** The thread's earliest wake-up near the window was at `ready`, and on time. */
  ghost predicate WokenOnTime(rd: seq<ReadyRec>, w: Window, ready: int) {
    w.start < w.end && FirstWoken(rd, w, ready) && ready <= w.start + Slack(w.end - w.start)
  }

  /** It was switched off into a wait between that wake-up and the window's end. */
  ghost predicate OffAgain(sw: seq<SwitchRec>, w: Window, ready: int, s: SwitchRec) {
    s in sw && s.oldTid == w.tid && s.oldState == STATE_WAITING && ready < s.ts < w.end
  }

  /** It was switched in, less than the slack before the window or at most as long after it. */
  ghost predicate SwitchedInNear(sw: seq<SwitchRec>, w: Window, s: SwitchRec) {
    && s in sw && s.newTid == w.tid
    && w.start < s.ts + Slack(w.end - w.start) && s.ts <= w.end + Slack(w.end - w.start)
  }

  lemma {:induction false} FirstReadyIsEarliest(rd: seq<ReadyRec>, w: Window)
    requires TimeOrdered(rd, ReadyTs)
    ensures FirstReady(rd, w).Some? <==> exists r :: r in rd && InRange(w, r)
    ensures var first := FirstReady(rd, w);
      first.Some? ==> first.value in rd && InRange(w, first.value) && forall r :: r in rd && InRange(w, r) ==> first.value.ts <= r.ts
  {
    if rd != [] {
      LastIsLatest(rd, ReadyTs);
      FirstReadyIsEarliest(rd[..|rd| - 1], w);
      assert ReadyTs(rd[|rd| - 1]) == rd[|rd| - 1].ts;
    }
  }

  lemma FirstReadyExactly(rd: seq<ReadyRec>, w: Window)
    requires TimeOrdered(rd, ReadyTs)
    ensures FirstReady(rd, w).Some? <==> exists r :: WokenNear(rd, w, r)
    ensures FirstReady(rd, w).Some? ==> FirstWoken(rd, w, FirstReady(rd, w).value.ts)
  {
    FirstReadyIsEarliest(rd, w);
    forall r ensures WokenNear(rd, w, r) <==> r in rd && InRange(w, r) {}
  }

  lemma JudgementMeaning(sw: seq<SwitchRec>, rd: seq<ReadyRec>, w: Window)
    requires TimeOrdered(rd, ReadyTs)
    ensures Judge(sw, rd, w).Unjudged? <==> !Judgeable(rd, w)
    ensures Judge(sw, rd, w).Late? <==> Judgeable(rd, w) && WokenTooLate(rd, w)
    ensures Judge(sw, rd, w).Late? ==> FirstWoken(rd, w, w.start + Judge(sw, rd, w).delay)
  {
    FirstReadyExactly(rd, w);
  }

  /** The newest switch of this kind, or none when there is none. */
  ghost predicate NewestSuch(sw: seq<SwitchRec>, such: SwitchRec -> bool, newest: Option<SwitchRec>) {
    && (newest.Some? ==> newest.value in sw && such(newest.value))
    && (forall s :: s in sw && such(s) ==> newest.Some? && SwitchTs(s) <= SwitchTs(newest.value))
  }

  lemma LastIsNewestSuch(sw: seq<SwitchRec>, such: SwitchRec -> bool)
    requires TimeOrdered(sw, SwitchTs)
    ensures NewestSuch(sw, such, Last(sw, such))
  {
    LastFacts(sw, such);
    LastIsNewest(sw, SwitchTs, such);
  }

  ghost predicate NewestOffAgain(sw: seq<SwitchRec>, w: Window, ready: int, off: Option<SwitchRec>) {
    && (off.Some? ==> OffAgain(sw, w, ready, off.value))
    && forall s :: OffAgain(sw, w, ready, s) ==> off.Some? && s.ts <= off.value.ts
  }

  ghost predicate NewestIn(sw: seq<SwitchRec>, w: Window, ran: Option<SwitchRec>) {
    && (ran.Some? ==> SwitchedInNear(sw, w, ran.value))
    && forall s :: SwitchedInNear(sw, w, s) ==> ran.Some? && s.ts <= ran.value.ts
  }

  /** Woken on time, a thread blocked again exactly when it was switched off into a wait after its
      earliest wake-up and before the window ended, and the reason is the newest such wait's;
      otherwise it sat in the queue from that wake-up until the newest switch that ran it, or the
      window's end, on the processor it is pinned to or else the one it then ran on. */
  lemma OnTimeMeaning(sw: seq<SwitchRec>, rd: seq<ReadyRec>, w: Window, ready: int)
      returns (off: Option<SwitchRec>, ran: Option<SwitchRec>)
    requires TimeOrdered(sw, SwitchTs) && TimeOrdered(rd, ReadyTs) && WokenOnTime(rd, w, ready)
    ensures NewestOffAgain(sw, w, ready, off) && NewestIn(sw, w, ran)
    ensures off.Some? ==> Judge(sw, rd, w) == Blocked(off.value.oldReason)
    ensures off.None? && ran.Some? ==>
      Judge(sw, rd, w) == Queued(ready, ran.value.ts, Some(if w.cpu.Some? then w.cpu.value else ran.value.cpu))
    ensures off.None? && ran.None? ==> Judge(sw, rd, w) == Queued(ready, w.end, w.cpu)
  {
    FirstReadyExactly(rd, w);
    off, ran := LastBlocked(sw, w.tid, ready, w.end), RanAt(sw, w);
    LastIsNewestSuch(sw, BlockedIn(w.tid, ready, w.end));
    LastIsNewestSuch(sw, RanIn(w));
    var blocked, runs := BlockedIn(w.tid, ready, w.end), RanIn(w);
    forall s ensures OffAgain(sw, w, ready, s) <==> s in sw && blocked(s) {}
    forall s ensures SwitchedInNear(sw, w, s) <==> s in sw && runs(s) {}
    assert forall s: SwitchRec :: SwitchTs(s) == s.ts;
  }

  // ---- What the verdict claims ------------------------------------------------------------------

  /** Woken on time and not switched off into a wait before the window ended. */
  ghost predicate LeftInQueue(sw: seq<SwitchRec>, rd: seq<ReadyRec>, w: Window) {
    exists ready :: WokenOnTime(rd, w, ready) && forall s :: !OffAgain(sw, w, ready, s)
  }

  /** Woken on time and switched off into a wait before the window ended. */
  ghost predicate BlockedAgain(sw: seq<SwitchRec>, rd: seq<ReadyRec>, w: Window) {
    exists ready, s :: WokenOnTime(rd, w, ready) && OffAgain(sw, w, ready, s)
  }

  /** What one word for these windows claims: of all that can be judged the same, and of some. No word is
      said exactly when none can be judged, and `Mixed` when they differ. */
  ghost predicate Claims(verdict: Option<Verdict>, sw: seq<SwitchRec>, rd: seq<ReadyRec>, windows: seq<Window>) {
    var some := exists w :: w in windows && Judgeable(rd, w);
    var late := forall w :: w in windows && Judgeable(rd, w) ==> WokenTooLate(rd, w);
    var queued := forall w :: w in windows && Judgeable(rd, w) ==> LeftInQueue(sw, rd, w);
    var blocked := forall w :: w in windows && Judgeable(rd, w) ==> BlockedAgain(sw, rd, w);
    && (verdict.None? <==> !some)
    && (verdict == Some(NotWoken) <==> some && late)
    && (verdict == Some(LeftQueued) <==> some && queued)
    && (verdict == Some(WasBlocked) <==> some && blocked)
    && (verdict == Some(Mixed) <==> some && !late && !queued && !blocked)
  }

  lemma JudgedExactly(sw: seq<SwitchRec>, rd: seq<ReadyRec>, w: Window)
    requires TimeOrdered(sw, SwitchTs) && TimeOrdered(rd, ReadyTs)
    ensures IsLate(sw, rd)(w) <==> Judgeable(rd, w) && WokenTooLate(rd, w)
    ensures IsQueued(sw, rd)(w) <==> LeftInQueue(sw, rd, w)
    ensures IsBlocked(sw, rd)(w) <==> BlockedAgain(sw, rd, w)
    ensures Judgeable(rd, w) <==> IsLate(sw, rd)(w) || IsQueued(sw, rd)(w) || IsBlocked(sw, rd)(w)
  {
    JudgementMeaning(sw, rd, w);
    FirstReadyExactly(rd, w);
    forall ready | WokenOnTime(rd, w, ready)
      ensures (exists s :: OffAgain(sw, w, ready, s)) <==> Judge(sw, rd, w).Blocked?
      ensures (forall s :: !OffAgain(sw, w, ready, s)) <==> Judge(sw, rd, w).Queued?
    {
      var off, ran := OnTimeMeaning(sw, rd, w, ready);
    }
    if Judge(sw, rd, w).Queued? || Judge(sw, rd, w).Blocked? {
      assert WokenOnTime(rd, w, FirstReady(rd, w).value.ts);
    }
  }

  /** Each word stands for which counts are not zero. */
  lemma WordExactly(late: nat, queued: nat, blocked: nat)
    ensures var verdict := OverallOf(late, queued, blocked);
      && (verdict.None? <==> late + queued + blocked == 0)
      && (verdict == Some(NotWoken) <==> late > 0 && queued + blocked == 0)
      && (verdict == Some(LeftQueued) <==> queued > 0 && late + blocked == 0)
      && (verdict == Some(WasBlocked) <==> blocked > 0 && late + queued == 0)
  {}

  /** The verdict says exactly what it claims of the windows. */
  lemma {:induction false} OverallExactly(sw: seq<SwitchRec>, rd: seq<ReadyRec>, windows: seq<Window>)
    requires TimeOrdered(sw, SwitchTs) && TimeOrdered(rd, ReadyTs)
    ensures Claims(OverallOf(|Filter(windows, IsLate(sw, rd))|,
                             |Filter(windows, IsQueued(sw, rd))|,
                             |Filter(windows, IsBlocked(sw, rd))|), sw, rd, windows)
  {
    var late, queued, blocked := IsLate(sw, rd), IsQueued(sw, rd), IsBlocked(sw, rd);
    WordExactly(|Filter(windows, late)|, |Filter(windows, queued)|, |Filter(windows, blocked)|);
    FilterEmpty(windows, late);
    FilterEmpty(windows, queued);
    FilterEmpty(windows, blocked);
    forall w
      ensures late(w) <==> Judgeable(rd, w) && WokenTooLate(rd, w)
      ensures queued(w) <==> LeftInQueue(sw, rd, w)
      ensures blocked(w) <==> BlockedAgain(sw, rd, w)
      ensures Judgeable(rd, w) <==> late(w) || queued(w) || blocked(w)
    {
      JudgedExactly(sw, rd, w);
    }
    assert forall w :: !(late(w) && queued(w)) && !(late(w) && blocked(w)) && !(queued(w) && blocked(w));
  }

  /** "Nothing woke them" needs only the wake-ups in order. */
  lemma NotWokenExactly(sw: seq<SwitchRec>, rd: seq<ReadyRec>, windows: seq<Window>)
    requires TimeOrdered(rd, ReadyTs)
    ensures OverallOf(|Filter(windows, IsLate(sw, rd))|,
                      |Filter(windows, IsQueued(sw, rd))|,
                      |Filter(windows, IsBlocked(sw, rd))|) == Some(NotWoken)
      <==> (exists w :: w in windows && Judgeable(rd, w))
           && (forall w :: w in windows && Judgeable(rd, w) ==> WokenTooLate(rd, w))
  {
    var late, queued, blocked := IsLate(sw, rd), IsQueued(sw, rd), IsBlocked(sw, rd);
    FilterEmpty(windows, late);
    FilterEmpty(windows, queued);
    FilterEmpty(windows, blocked);
    forall w
      ensures Judgeable(rd, w) <==> late(w) || queued(w) || blocked(w)
      ensures late(w) <==> Judgeable(rd, w) && WokenTooLate(rd, w)
    {
      JudgementMeaning(sw, rd, w);
    }
  }

  // ---- The holders ------------------------------------------------------------------------------

  function NamesThread(): Outcome -> bool { (o: Outcome) => o.ReadyNotRun? && o.instead.Thread? }

  /** Before the cut every thread an outcome names is listed, once per outcome and in order. */
  lemma {:induction false} HoldersListed(os: seq<Outcome>)
    ensures var (listed, naming) := (AddAll(os).instead, Filter(os, NamesThread()));
      && |listed| == |naming|
      && forall k :: 0 <= k < |naming| ==>
           naming[k].ReadyNotRun? && naming[k].instead.Thread? && listed[k] == (naming[k].instead.tid, naming[k].instead.prio, naming[k].instead.held)
  {
    if os != [] {
      HoldersListed(os[..|os| - 1]);
    }
  }

  /** The reasons are those of the outcomes that blocked, each once. */
  ghost predicate ListedOnce(reasons: seq<int>, os: seq<Outcome>) {
    && (forall i, j :: 0 <= i < j < |reasons| ==> reasons[i] != reasons[j])
    && (forall reason :: reason in reasons <==> RanThenBlocked(reason) in os)
  }

  lemma ReasonNext(reasons: seq<int>, os: seq<Outcome>, o: Outcome)
    requires ListedOnce(reasons, os)
    ensures ListedOnce(if o.RanThenBlocked? && o.reason !in reasons then reasons + [o.reason] else reasons, os + [o])
  {
    assert forall x :: x in os + [o] <==> x in os || x == o;
  }

  lemma {:induction false} ReasonsOnce(os: seq<Outcome>)
    ensures ListedOnce(AddAll(os).reasons, os)
  {
    if os != [] {
      var init, o := os[..|os| - 1], os[|os| - 1];
      ReasonsOnce(init);
      ReasonNext(AddAll(init).reasons, init, o);
      assert os == init + [o];
    }
  }

  /** What is left after leaving out these. */
  ghost predicate Leaves(kept: seq<Holder>, rest: seq<Holder>, holders: seq<Holder>) {
    && multiset(kept) + multiset(rest) == multiset(holders)
    && forall h, k :: h in rest && k in kept ==> h.2 <= k.2
  }

  lemma SortedCut(sorted: seq<Holder>, n: nat)
    requires SortedBy(sorted, HolderKey) && n <= |sorted|
    ensures Leaves(sorted[..n], sorted[n..], sorted)
    ensures forall a, b :: 0 <= a < b < n ==> sorted[a].2 >= sorted[b].2
  {
    var kept, rest := sorted[..n], sorted[n..];
    assert sorted == kept + rest;
    forall h, k | h in rest && k in kept ensures h.2 <= k.2 {
      var i :| 0 <= i < |rest| && rest[i] == h;
      var j :| 0 <= j < n && kept[j] == k;
      HeldLess(sorted, j, n + i);
    }
    forall a, b | 0 <= a < b < n ensures sorted[a].2 >= sorted[b].2 {
      HeldLess(sorted, a, b);
    }
  }

  lemma HeldLess(sorted: seq<Holder>, a: nat, b: nat)
    requires SortedBy(sorted, HolderKey) && a < b < |sorted|
    ensures sorted[a].2 >= sorted[b].2
  {
    assert KeyLe(HolderKey(sorted[a]), HolderKey(sorted[b]));
  }

  /** The `n` that were held longest, in that order, and which of these are left out. */
  ghost predicate Longest(kept: seq<Holder>, n: nat, holders: seq<Holder>) {
    && |kept| == n
    && (forall a, b :: 0 <= a < b < |kept| ==> kept[a].2 >= kept[b].2)
    && exists rest: seq<Holder> :: Leaves(kept, rest, holders)
  }

  lemma CutLongest(sorted: seq<Holder>, holders: seq<Holder>, n: nat)
    requires SortedBy(sorted, HolderKey) && n <= |sorted| && multiset(sorted) == multiset(holders)
    ensures Longest(sorted[..n], n, holders)
  {
    SortedCut(sorted, n);
    assert Leaves(sorted[..n], sorted[n..], holders);
  }

  /** The cut keeps eight, or all if there are fewer, by time held, and drops none that was held longer
      than one it keeps. */
  lemma {:induction false} Worst8Exactly(holders: seq<Holder>)
    ensures Longest(Worst8(holders), Min(8, |holders|), holders)
  {
    var sorted := SortBy(holders, HolderKey);
    SortByMeaning(holders, HolderKey);
    CutLongest(sorted, holders, Min(8, |sorted|));
  }
}
