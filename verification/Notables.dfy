/** The one-liners of the event log: each notable event is handled exactly once and in the order
    it arrived, however long a slow request is held back for its trace to catch up. */
module Notables {
  import opened Trace
  import Quiet

  const WINDOW: nat := FREQ
  const LINES_PER_WINDOW: nat := 6

  /** A notable event, reduced to what the log decides on. Only a slow request is ever waited for. */
  datatype Notable = Notable(slowIo: bool, subject: string, duration: int, note: string)

  datatype State = State(
    held: seq<Notable>, lines: seq<Notable>, total: nat, suppressed: nat, folded: nat,
    windowStart: int, inWindow: nat, subjects: Quiet.Subjects)

  const START := State([], [], 0, 0, 0, 0, 0, map[])

  /** The first slow request that must still be waited for, or the number of events. */
  function FirstWaiting(all: seq<Notable>, waiting: Notable -> bool): (at: nat)
    ensures at <= |all|
    ensures at < |all| ==> all[at].slowIo && waiting(all[at])
    ensures forall i :: 0 <= i < at ==> !(all[i].slowIo && waiting(all[i]))
  {
    if all == [] || (all[0].slowIo && waiting(all[0])) then 0 else 1 + FirstWaiting(all[1..], waiting)
  }

  /** A slow request the trace has not caught up with. */
  predicate StillWaits(n: Notable, waiting: Notable -> bool) { n.slowIo && waiting(n) }

  /** Of these events `rest` is held back: the last call holds nothing, and any other step everything
      from the first request that is still waited for. */
  ghost predicate HeldBack(all: seq<Notable>, rest: seq<Notable>, waiting: Notable -> bool, lastCall: bool) {
    && |rest| <= |all| && rest == all[|all| - |rest|..]
    && (lastCall ==> rest == [])
    && (!lastCall ==> (forall i :: 0 <= i < |all| - |rest| ==> !StillWaits(all[i], waiting))
                      && (rest != [] ==> StillWaits(rest[0], waiting)))
  }

  /** What becomes of one event, read at clock `now`. */
  function HandleOne(st: State, n: Notable, now: int): State {
    var s := Quiet.SubjectOf(st.subjects, n.subject);
    var st := st.(total := st.total + 1, subjects := Quiet.Offered(st.subjects, n.subject, n.duration, n.note, now));
    if !Quiet.Shows(s, n.duration) then st.(folded := st.folded + 1)
    else
      var st := if now - st.windowStart > WINDOW then st.(windowStart := now, inWindow := 1) else st.(inWindow := st.inWindow + 1);
      if st.inWindow > LINES_PER_WINDOW then st.(suppressed := st.suppressed + 1) else st.(lines := st.lines + [n])
  }

  function HandleAll(st: State, batch: seq<Notable>, clock: nat -> int): State {
    if batch == [] then st
    else HandleOne(HandleAll(st, batch[..|batch| - 1], clock), batch[|batch| - 1], clock(|batch| - 1))
  }

  /** What this step handles, and what it holds back. */
  function Batch(st: State, arrived: seq<Notable>, waiting: Notable -> bool, lastCall: bool): (seq<Notable>, seq<Notable>) {
    var all := st.held + arrived;
    var at := if lastCall then |all| else FirstWaiting(all, waiting);
    (all[..at], all[at..])
  }

  /** The log once the step's batch is handled, before roll-ups are looked at. */
  function BeforeSweep(st: State, arrived: seq<Notable>, waiting: Notable -> bool, lastCall: bool, clock: nat -> int): State {
    var (batch, rest) := Batch(st, arrived, waiting, lastCall);
    HandleAll(st.(held := rest), batch, clock)
  }

  class Reporter {
    var held: seq<Notable>
    var lines: seq<Notable>
    var total: nat
    var suppressed: nat
    var folded: nat
    var windowStart: int
    var inWindow: nat
    const quiet: Quiet.Quieter

    function View(): State
      reads this, quiet
    {
      State(held, lines, total, suppressed, folded, windowStart, inWindow, quiet.subjects)
    }

    constructor ()
      ensures View() == START && fresh(quiet)
    {
      quiet := new Quiet.Quieter();
      held, lines, total, suppressed, folded, windowStart, inWindow := [], [], 0, 0, 0, 0, 0;
    }

    method HandleEvent(n: Notable, now: int)
      modifies this, quiet
      ensures View() == HandleOne(old(View()), n, now)
    {
      total := total + 1;
      var shown := quiet.Offer(n.subject, n.duration, n.note, now);
      if !shown {
        folded := folded + 1;
        return;
      }
      if now - windowStart > WINDOW {
        windowStart := now;
        inWindow := 0;
      }
      inWindow := inWindow + 1;
      if inWindow > LINES_PER_WINDOW {
        suppressed := suppressed + 1;
        return;
      }
      lines := lines + [n];
    }

    method HandleBatch(batch: seq<Notable>, clock: nat -> int)
      modifies this, quiet
      ensures View() == HandleAll(old(View()), batch, clock)
    {
      for i := 0 to |batch|
        invariant View() == HandleAll(old(View()), batch[..i], clock)
      {
        assert batch[..i + 1][..i] == batch[..i];
        HandleEvent(batch[i], clock(i));
      }
      assert batch[..|batch|] == batch;
    }

    /** One step of the log: what is handled, what is held back, and the roll-ups that are due.
        `waiting` says which slow requests the trace has not caught up with. */
    method Report(arrived: seq<Notable>, waiting: Notable -> bool, lastCall: bool, clock: nat -> int, now: int, every: int)
      returns (due: seq<Quiet.Rollup>)
      modifies this, quiet
      ensures View() == Apply(old(View()), Step(arrived, waiting, lastCall, clock, now, every))
      ensures HeldBack(old(held) + arrived, held, waiting, lastCall)
      ensures var subjects := BeforeSweep(old(View()), arrived, waiting, lastCall, clock).subjects;
        if lastCall then Quiet.DueOut(due, subjects, I64_MAX, 0) else Quiet.DueOut(due, subjects, now, every)
    {
      var all := held + arrived;
      var at := |all|;
      if !lastCall {
        at := FirstWaiting(all, waiting);
      }
      held := all[at..];
      HandleAllHeld(View(), all[..at], clock);
      HandleBatch(all[..at], clock);
      if lastCall {
        due := quiet.Due(I64_MAX, 0);
      } else {
        due := quiet.Due(now, every);
      }
    }
  }

  // ---- Whole runs -------------------------------------------------------------------------------

  /** What one step of the log is given. */
  datatype Step = Step(arrived: seq<Notable>, waiting: Notable -> bool, lastCall: bool, clock: nat -> int, now: int, every: int)

  function Apply(st: State, s: Step): State {
    var handled := BeforeSweep(st, s.arrived, s.waiting, s.lastCall, s.clock);
    var (at, period) := if s.lastCall then (I64_MAX, 0) else (s.now, s.every);
    handled.(subjects := Quiet.Swept(handled.subjects, at, period))
  }

  function After(steps: seq<Step>): State {
    if steps == [] then START else Apply(After(steps[..|steps| - 1]), steps[|steps| - 1])
  }

  function Arrived(steps: seq<Step>): seq<Notable> {
    if steps == [] then [] else Arrived(steps[..|steps| - 1]) + steps[|steps| - 1].arrived
  }

  /** The events handled, in the order they were. */
  function Handled(steps: seq<Step>): seq<Notable> {
    if steps == [] then []
    else
      var s := steps[|steps| - 1];
      Handled(steps[..|steps| - 1]) + Batch(After(steps[..|steps| - 1]), s.arrived, s.waiting, s.lastCall).0
  }

  ghost predicate CountsAddUp(st: State) {
    st.total == |st.lines| + st.suppressed + st.folded
  }

  lemma {:induction false} HandleAllCounts(st: State, batch: seq<Notable>, clock: nat -> int)
    requires CountsAddUp(st)
    ensures var next := HandleAll(st, batch, clock);
      CountsAddUp(next) && next.total == st.total + |batch| && next.held == st.held
  {
    if batch != [] {
      HandleAllCounts(st, batch[..|batch| - 1], clock);
    }
  }

  /** A step splits what is held and what arrived into what it handles and what it holds. */
  lemma ApplySplits(st: State, s: Step)
    requires CountsAddUp(st)
    ensures var batch, next := Batch(st, s.arrived, s.waiting, s.lastCall).0, Apply(st, s);
      && batch + next.held == st.held + s.arrived
      && next.total == st.total + |batch| && CountsAddUp(next)
      && (s.lastCall ==> next.held == [])
  {
    var (batch, rest) := Batch(st, s.arrived, s.waiting, s.lastCall);
    HandleAllCounts(st.(held := rest), batch, s.clock);
  }

  lemma Regroup(a: seq<Notable>, b: seq<Notable>, c: seq<Notable>, d: seq<Notable>, e: seq<Notable>)
    requires b + c == d + e
    ensures (a + b) + c == (a + d) + e
  {
    assert (a + b) + c == a + (b + c);
    assert (a + d) + e == a + (d + e);
  }

  /** Whatever is held back and for how long, the events handled so far and those still held are the
      events that arrived, in order: each is handled exactly once. Every one handled was shown on a
      line of its own, suppressed or folded; and the last call holds nothing back. */
  lemma {:induction false} HandledOnceInOrder(steps: seq<Step>)
    ensures Handled(steps) + After(steps).held == Arrived(steps)
    ensures After(steps).total == |Handled(steps)| && CountsAddUp(After(steps))
    ensures steps != [] && steps[|steps| - 1].lastCall ==> After(steps).held == []
  {
    if steps != [] {
      var init, s := steps[..|steps| - 1], steps[|steps| - 1];
      HandledOnceInOrder(init);
      var st := After(init);
      ApplySplits(st, s);
      Regroup(Handled(init), Batch(st, s.arrived, s.waiting, s.lastCall).0, After(steps).held, st.held, s.arrived);
    }
  }

  /** Every step holds back exactly what it must: from the first request still waited for on, unless it is
      the last call. */
  lemma HeldExactly(st: State, s: Step)
    ensures HeldBack(st.held + s.arrived, Apply(st, s).held, s.waiting, s.lastCall)
  {
    var (batch, rest) := Batch(st, s.arrived, s.waiting, s.lastCall);
    HandleAllHeld(st.(held := rest), batch, s.clock);
  }

  /** Of all that arrived, in order, a step handles `[was, now)`: nothing that is still waited for, up to
      the first that is, or everything on a last call. */
  ghost predicate HandlesTo(arrived: seq<Notable>, was: nat, now: nat, waiting: Notable -> bool, lastCall: bool) {
    && was <= now <= |arrived|
    && (lastCall ==> now == |arrived|)
    && (!lastCall ==> (forall i :: was <= i < now ==> !StillWaits(arrived[i], waiting))
                      && (now < |arrived| ==> StillWaits(arrived[now], waiting)))
  }

  lemma HeldAmong(before: seq<Notable>, held: seq<Notable>, arrived: seq<Notable>, rest: seq<Notable>, was: nat, now: nat,
                  waiting: Notable -> bool, lastCall: bool)
    requires HeldBack(held + arrived, rest, waiting, lastCall)
    requires was == |before| && now == was + |held + arrived| - |rest|
    ensures HandlesTo((before + held) + arrived, was, now, waiting, lastCall)
  {
    var all := held + arrived;
    assert (before + held) + arrived == before + all;
    assert forall i :: was <= i < was + |all| ==> (before + all)[i] == all[i - was];
  }

  lemma {:induction false} StepHandles(st: State, s: Step, before: seq<Notable>)
    requires CountsAddUp(st) && st.total == |before|
    ensures HandlesTo((before + st.held) + s.arrived, st.total, Apply(st, s).total, s.waiting, s.lastCall)
  {
    StepTotals(st, s);
    HeldExactly(st, s);
    HeldAmong(before, st.held, s.arrived, Apply(st, s).held, st.total, Apply(st, s).total, s.waiting, s.lastCall);
  }

  lemma {:induction false} StepTotals(st: State, s: Step)
    requires CountsAddUp(st)
    ensures Apply(st, s).total == st.total + |st.held + s.arrived| - |Apply(st, s).held|
  {
    ApplySplits(st, s);
    var batch, rest := Batch(st, s.arrived, s.waiting, s.lastCall).0, Apply(st, s).held;
    assert |batch + rest| == |st.held + s.arrived|;
  }

  /** Over every run, the totals before and after a step say what it handled: no step but a last call
      handles a request that is still waited for, and none stops short of the first. */
  lemma {:induction false} WaitedFor(steps: seq<Step>)
    requires steps != []
    ensures HandlesTo(Arrived(steps), After(steps[..|steps| - 1]).total, After(steps).total,
                      steps[|steps| - 1].waiting, steps[|steps| - 1].lastCall)
  {
    var init, s := steps[..|steps| - 1], steps[|steps| - 1];
    HandledOnceInOrder(init);
    StepHandles(After(init), s, Handled(init));
  }

  lemma {:induction false} HandleAllHeld(st: State, batch: seq<Notable>, clock: nat -> int)
    ensures HandleAll(st, batch, clock).held == st.held
  {
    if batch != [] {
      HandleAllHeld(st, batch[..|batch| - 1], clock);
    }
  }

  // ---- What the log shows -----------------------------------------------------------------------

  /** `few` is what is left of `all` after leaving some out. */
  predicate PartOf(few: seq<Notable>, all: seq<Notable>)
    decreases |all|
  {
    if few == [] then true
    else if all == [] then false
    else
      || (few[|few| - 1] == all[|all| - 1] && PartOf(few[..|few| - 1], all[..|all| - 1]))
      || PartOf(few, all[..|all| - 1])
  }

  lemma {:induction false} PartOfMore(few: seq<Notable>, all: seq<Notable>, n: Notable)
    requires PartOf(few, all)
    ensures PartOf(few, all + [n]) && PartOf(few + [n], all + [n])
  {
    assert (all + [n])[..|all|] == all && (few + [n])[..|few|] == few;
  }

  lemma ShownOrNot(st: State, n: Notable, now: int, before: seq<Notable>)
    requires PartOf(st.lines, before)
    ensures PartOf(HandleOne(st, n, now).lines, before + [n])
  {
    PartOfMore(st.lines, before, n);
    assert HandleOne(st, n, now).lines in {st.lines, st.lines + [n]};
  }

  lemma {:induction false} HandleAllShows(st: State, batch: seq<Notable>, clock: nat -> int, before: seq<Notable>)
    requires PartOf(st.lines, before)
    ensures PartOf(HandleAll(st, batch, clock).lines, before + batch)
  {
    if batch == [] {
      assert before + batch == before;
    } else {
      var init, n := batch[..|batch| - 1], batch[|batch| - 1];
      HandleAllShows(st, init, clock, before);
      ShownOrNot(HandleAll(st, init, clock), n, clock(|init|), before + init);
      assert before + batch == before + init + [n];
    }
  }

  /** The log's lines are events that were handled, in that order, each at most once. */
  lemma {:induction false} LinesAreHandled(steps: seq<Step>)
    ensures PartOf(After(steps).lines, Handled(steps))
  {
    if steps != [] {
      var init, s := steps[..|steps| - 1], steps[|steps| - 1];
      var st := After(init);
      var (batch, rest) := Batch(st, s.arrived, s.waiting, s.lastCall);
      LinesAreHandled(init);
      HandleAllShows(st.(held := rest), batch, s.clock, Handled(init));
    }
  }

  /** The lines written since the line window last began, given how many there were before. */
  function LinesSince(st: State, batch: seq<Notable>, clock: nat -> int, before: nat): nat {
    if batch == [] then before
    else
      var init, n, now := batch[..|batch| - 1], batch[|batch| - 1], clock(|batch| - 1);
      var mid, so := HandleAll(st, init, clock), LinesSince(st, init, clock, before);
      var written := |HandleOne(mid, n, now).lines| - |mid.lines|;
      if Opens(mid, n, now) then Max(written, 0) else so + Max(written, 0)
  }

  /** This event begins a new line window. */
  predicate Opens(st: State, n: Notable, now: int) {
    Quiet.Shows(Quiet.SubjectOf(st.subjects, n.subject), n.duration) && now - st.windowStart > WINDOW
  }

  function LinesInWindow(steps: seq<Step>): nat {
    if steps == [] then 0
    else
      var init, s := steps[..|steps| - 1], steps[|steps| - 1];
      var (batch, rest) := Batch(After(init), s.arrived, s.waiting, s.lastCall);
      LinesSince(After(init).(held := rest), batch, s.clock, LinesInWindow(init))
  }

  lemma {:induction false} BatchLines(st: State, batch: seq<Notable>, clock: nat -> int, before: nat)
    requires before == Min(st.inWindow, LINES_PER_WINDOW)
    ensures LinesSince(st, batch, clock, before) == Min(HandleAll(st, batch, clock).inWindow, LINES_PER_WINDOW)
  {
    if batch != [] {
      BatchLines(st, batch[..|batch| - 1], clock, before);
    }
  }

  /** However events come and wait, at most six lines are written in one line window. */
  lemma {:induction false} SixLinesAWindow(steps: seq<Step>)
    ensures LinesInWindow(steps) == Min(After(steps).inWindow, LINES_PER_WINDOW) <= LINES_PER_WINDOW
  {
    if steps != [] {
      var init, s := steps[..|steps| - 1], steps[|steps| - 1];
      var (batch, rest) := Batch(After(init), s.arrived, s.waiting, s.lastCall);
      SixLinesAWindow(init);
      BatchLines(After(init).(held := rest), batch, s.clock, LinesInWindow(init));
    }
  }

  // ---- When a line window begins ----------------------------------------------------------------

  /** When the events of a batch that are not folded were handled. */
  function ShownTimes(st: State, batch: seq<Notable>, clock: nat -> int): seq<int> {
    if batch == [] then []
    else
      var init, n := batch[..|batch| - 1], batch[|batch| - 1];
      var shown := Quiet.Shows(Quiet.SubjectOf(HandleAll(st, init, clock).subjects, n.subject), n.duration);
      ShownTimes(st, init, clock) + if shown then [clock(|init|)] else []
  }

  function Times(steps: seq<Step>): seq<int> {
    if steps == [] then []
    else
      var init, s := steps[..|steps| - 1], steps[|steps| - 1];
      var (batch, rest) := Batch(After(init), s.arrived, s.waiting, s.lastCall);
      Times(init) + ShownTimes(After(init).(held := rest), batch, s.clock)
  }

  /** When the window of the last of these times began, and how many are in it. The first begins with the
      clock; each other one with the first time more than a second after the one before began. */
  function WindowOf(times: seq<int>): (int, nat) {
    if times == [] then (0, 0)
    else
      var (began, n) := WindowOf(times[..|times| - 1]);
      if times[|times| - 1] - began > FREQ then (times[|times| - 1], 1) else (began, n + 1)
  }

  /** How many of these times are among the first six of their window. */
  function FirstSixes(times: seq<int>): nat {
    if times == [] then 0 else FirstSixes(times[..|times| - 1]) + if WindowOf(times).1 <= 6 then 1 else 0
  }

  ghost predicate LinesTimed(st: State, times: seq<int>) {
    && (st.windowStart, st.inWindow) == WindowOf(times)
    && |st.lines| == FirstSixes(times) && |st.lines| + st.suppressed == |times|
  }

  lemma LineTimed(st: State, n: Notable, now: int, times: seq<int>)
    requires LinesTimed(st, times)
    ensures LinesTimed(HandleOne(st, n, now),
      times + if Quiet.Shows(Quiet.SubjectOf(st.subjects, n.subject), n.duration) then [now] else [])
  {
    assert (times + [now])[..|times|] == times;
    assert times + [] == times;
  }

  lemma {:induction false} BatchTimed(st: State, batch: seq<Notable>, clock: nat -> int, times: seq<int>)
    requires LinesTimed(st, times)
    ensures LinesTimed(HandleAll(st, batch, clock), times + ShownTimes(st, batch, clock))
  {
    if batch == [] {
      assert times + [] == times;
    } else {
      var init, n := batch[..|batch| - 1], batch[|batch| - 1];
      var so := times + ShownTimes(st, init, clock);
      BatchTimed(st, init, clock, times);
      LineTimed(HandleAll(st, init, clock), n, clock(|init|), so);
      var shown := Quiet.Shows(Quiet.SubjectOf(HandleAll(st, init, clock).subjects, n.subject), n.duration);
      assert times + ShownTimes(st, batch, clock) == so + if shown then [clock(|init|)] else [];
    }
  }

  /** Over every run, of the events not folded exactly the first six of each window get a line, where the
      windows are told by their times alone. */
  lemma {:induction false} LinesAreFirstSixes(steps: seq<Step>)
    ensures LinesTimed(After(steps), Times(steps))
  {
    if steps != [] {
      var init, s := steps[..|steps| - 1], steps[|steps| - 1];
      var (batch, rest) := Batch(After(init), s.arrived, s.waiting, s.lastCall);
      LinesAreFirstSixes(init);
      BatchTimed(After(init).(held := rest), batch, s.clock, Times(init));
    }
  }

  /** So whatever came before, the first event not folded after more than a second without one gets a
      line. */
  lemma {:induction false} QuietSecondEnds(times: seq<int>, now: int)
    requires now > FREQ && forall t :: t in times ==> now - t > FREQ
    ensures FirstSixes(times + [now]) == FirstSixes(times) + 1
  {
    WindowBegan(times);
    assert (times + [now])[..|times|] == times;
  }

  lemma {:induction false} WindowBegan(times: seq<int>)
    ensures WindowOf(times).0 == 0 || WindowOf(times).0 in times
  {
    if times != [] {
      WindowBegan(times[..|times| - 1]);
    }
  }

  // ---- What the quieter is told -----------------------------------------------------------------

  /** Each event of a batch is offered to the quieter, at its own clock reading. */
  function Offers(batch: seq<Notable>, clock: nat -> int): seq<Quiet.Step> {
    seq(|batch|, i requires 0 <= i < |batch| => Quiet.Offer(batch[i].subject, batch[i].duration, batch[i].note, clock(i)))
  }

  /** The sweep that ends a step: of everything on the last call. */
  function SweepOf(s: Step): Quiet.Step {
    if s.lastCall then Quiet.Sweep(I64_MAX, 0) else Quiet.Sweep(s.now, s.every)
  }

  function QuietRun(steps: seq<Step>): seq<Quiet.Step> {
    if steps == [] then []
    else
      var init, s := steps[..|steps| - 1], steps[|steps| - 1];
      QuietRun(init) + Offers(Batch(After(init), s.arrived, s.waiting, s.lastCall).0, s.clock) + [SweepOf(s)]
  }

  lemma OfferTold(st: State, n: Notable, now: int, run: seq<Quiet.Step>)
    requires st.subjects == Quiet.After(run)
    ensures HandleOne(st, n, now).subjects == Quiet.After(run + [Quiet.Offer(n.subject, n.duration, n.note, now)])
  {
    var next := run + [Quiet.Offer(n.subject, n.duration, n.note, now)];
    assert next[..|run|] == run;
  }

  lemma OffersSnoc(before: seq<Quiet.Step>, init: seq<Notable>, n: Notable, clock: nat -> int)
    ensures before + Offers(init + [n], clock)
         == before + Offers(init, clock) + [Quiet.Offer(n.subject, n.duration, n.note, clock(|init|))]
  {}

  lemma {:induction false} OffersTold(st: State, batch: seq<Notable>, clock: nat -> int, before: seq<Quiet.Step>)
    requires st.subjects == Quiet.After(before)
    ensures HandleAll(st, batch, clock).subjects == Quiet.After(before + Offers(batch, clock))
  {
    if batch == [] {
      assert before + Offers(batch, clock) == before;
    } else {
      var init, n := batch[..|batch| - 1], batch[|batch| - 1];
      OffersTold(st, init, clock, before);
      OfferTold(HandleAll(st, init, clock), n, clock(|init|), before + Offers(init, clock));
      assert batch == init + [n];
      OffersSnoc(before, init, n, clock);
    }
  }

  /** Over every run the log's quieter is told of every event handled, once and in order, and swept at the
      end of every step: what holds of every run of a quieter holds of the log's. */
  lemma {:induction false} QuietIsTold(steps: seq<Step>)
    ensures After(steps).subjects == Quiet.After(QuietRun(steps))
  {
    if steps != [] {
      var init, s := steps[..|steps| - 1], steps[|steps| - 1];
      var (batch, rest) := Batch(After(init), s.arrived, s.waiting, s.lastCall);
      QuietIsTold(init);
      OffersTold(After(init).(held := rest), batch, s.clock, QuietRun(init));
      var run := QuietRun(steps);
      assert run[..|run| - 1] == QuietRun(init) + Offers(batch, s.clock);
    }
  }
}
