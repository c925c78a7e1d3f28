/** What is concluded from a window copied out of the rings, against what the unbounded trace says. */
module WindowEvidence {
  import opened Trace
  import opened Seqs
  import Rings
  import Evidence
  import opened Occupancy
  import opened Probes
  import opened Waits

  function Cut<T>(s: seq<T>, ts: T -> int, lo: int, hi: int): seq<T> {
    Filter(s, Within(ts, lo, hi))
  }

  // ---- Searching a window -----------------------------------------------------------------------

  /** What can only be found inside the window is found there alike. */
  lemma LastInCut(sw: seq<SwitchRec>, lo: int, hi: int, p: SwitchRec -> bool)
    requires forall s :: s in sw && p(s) ==> lo <= SwitchTs(s) <= hi
    ensures Last(Cut(sw, SwitchTs, lo, hi), p) == Last(sw, p)
  {
    LastFiltered(sw, Within(SwitchTs, lo, hi), p);
  }

  lemma {:induction false} CutOrdered<T(!new)>(s: seq<T>, ts: T -> int, lo: int, hi: int)
    requires TimeOrdered(s, ts)
    ensures TimeOrdered(Cut(s, ts, lo, hi), ts)
  {
    if s != [] {
      LastIsLatest(s, ts);
      var init := s[..|s| - 1];
      CutOrdered(init, ts, lo, hi);
      FilterMembers(init, Within(ts, lo, hi));
      var rest := Cut(init, ts, lo, hi);
      assert forall i :: 0 <= i < |rest| ==> rest[i] in rest;
    }
  }

  /** If the last that satisfies `p` is kept it stays the last. */
  lemma {:induction false} LastOfBoth<T(!new)>(s: seq<T>, keep: T -> bool, p: T -> bool)
    ensures Last(s, p).Some? && keep(Last(s, p).value) ==> Last(Filter(s, keep), p) == Last(s, p)
  {
    if s != [] {
      var init, last := s[..|s| - 1], s[|s| - 1];
      assert s == init + [last];
      LastOfBoth(init, keep, p);
      FilterSnoc(init, last, keep);
      assert (Filter(init, keep) + [last])[..|Filter(init, keep)|] == Filter(init, keep);
    }
  }

  /** A window shows the last of a kind exactly when that lies in it. */
  lemma LastInCutExactly(sw: seq<SwitchRec>, lo: int, hi: int, p: SwitchRec -> bool)
    ensures Last(Cut(sw, SwitchTs, lo, hi), p) == Last(sw, p)
      <==> (Last(sw, p).Some? ==> lo <= Last(sw, p).value.ts <= hi)
    ensures Last(Cut(sw, SwitchTs, lo, hi), p).Some? ==>
      Last(sw, p).Some? && lo <= Last(Cut(sw, SwitchTs, lo, hi), p).value.ts <= hi
  {
    var within := Within(SwitchTs, lo, hi);
    LastOfBoth(sw, within, p);
    LastFacts(sw, p);
    LastFacts(Cut(sw, SwitchTs, lo, hi), p);
    FilterMembers(sw, within);
    assert forall s :: within(s) <==> lo <= SwitchTs(s) <= hi;
    assert forall s: SwitchRec :: SwitchTs(s) == s.ts;
  }

  /** Narrowing a search that finds the same leaves it as it is. */
  lemma {:induction false} LastNarrowed<T(!new)>(s: seq<T>, p: T -> bool, q: T -> bool)
    requires forall x :: q(x) ==> p(x)
    requires Last(s, p).Some? && q(Last(s, p).value)
    ensures Last(s, q) == Last(s, p)
  {
    if !p(s[|s| - 1]) {
      LastNarrowed(s[..|s| - 1], p, q);
    }
  }

  lemma {:induction false} FirstReadyFacts(rd: seq<ReadyRec>, w: Window)
    ensures FirstReady(rd, w).Some? ==> FirstReady(rd, w).value in rd && InRange(w, FirstReady(rd, w).value)
    ensures FirstReady(rd, w).None? ==> forall r :: r in rd ==> !InRange(w, r)
  {
    if rd != [] {
      FirstReadyFacts(rd[..|rd| - 1], w);
      assert rd == rd[..|rd| - 1] + [rd[|rd| - 1]];
    }
  }

  lemma {:induction false} FirstOfBoth(rd: seq<ReadyRec>, keep: ReadyRec -> bool, w: Window)
    ensures FirstReady(rd, w).Some? && keep(FirstReady(rd, w).value) ==> FirstReady(Filter(rd, keep), w) == FirstReady(rd, w)
    ensures FirstReady(rd, w).None? ==> FirstReady(Filter(rd, keep), w).None?
  {
    if rd != [] {
      var init, last := rd[..|rd| - 1], rd[|rd| - 1];
      assert rd == init + [last];
      FirstOfBoth(init, keep, w);
      FilterSnoc(init, last, keep);
      assert (Filter(init, keep) + [last])[..|Filter(init, keep)|] == Filter(init, keep);
    }
  }

  /** The same of the first wake-up in range. */
  lemma FirstInCutExactly(rd: seq<ReadyRec>, lo: int, hi: int, w: Window)
    ensures FirstReady(Cut(rd, ReadyTs, lo, hi), w) == FirstReady(rd, w)
      <==> (FirstReady(rd, w).Some? ==> lo <= FirstReady(rd, w).value.ts <= hi)
    ensures FirstReady(Cut(rd, ReadyTs, lo, hi), w).Some? ==>
      && FirstReady(rd, w).Some? && lo <= FirstReady(Cut(rd, ReadyTs, lo, hi), w).value.ts <= hi
      && FirstReady(Cut(rd, ReadyTs, lo, hi), w).value in rd && InRange(w, FirstReady(Cut(rd, ReadyTs, lo, hi), w).value)
  {
    var within := Within(ReadyTs, lo, hi);
    FirstOfBoth(rd, within, w);
    FirstReadyFacts(Cut(rd, ReadyTs, lo, hi), w);
    FilterMembers(rd, within);
    assert forall r :: within(r) <==> lo <= ReadyTs(r) <= hi;
    assert forall r: ReadyRec :: ReadyTs(r) == r.ts;
  }

  // ---- Who was kept waiting ---------------------------------------------------------------------

  lemma CutTwice<T(!new)>(s: seq<T>, ts: T -> int, lo: int, hi: int, from: int, to: int)
    requires lo <= from && to <= hi
    ensures Cut(Cut(s, ts, lo, hi), ts, from, to) == Cut(s, ts, from, to)
  {
    FilterTwice(s, Within(ts, lo, hi), Within(ts, from, to), Within(ts, from, to));
  }

  /** The events of a stretch are the same on any window around it. */
  lemma SameWaits(sw: seq<SwitchRec>, rd: seq<ReadyRec>, lo: int, hi: int, from: int, to: int)
    requires lo <= from && to <= hi
    ensures WindowItems(Cut(sw, SwitchTs, lo, hi), Cut(rd, ReadyTs, lo, hi), from, to) == WindowItems(sw, rd, from, to)
  {
    CutTwice(sw, SwitchTs, lo, hi, from, to);
    CutTwice(rd, ReadyTs, lo, hi, from, to);
  }

  // ---- Why a probe was late ---------------------------------------------------------------------

  /** What a window must show of a late wake-up: the first wake-up in range and, of a queued thread,
      the last switch that ran it. A wake-up before the window can stand in for by a later one only if
      the thread blocked after both. */
  ghost predicate Tells(sw: seq<SwitchRec>, rd: seq<ReadyRec>, lo: int, hi: int, w: Window) {
    var ready, ran := FirstReady(rd, w), RanAt(sw, w);
    || w.end <= w.start || ready.None?
    || (lo <= ready.value.ts <= hi && (Judge(sw, rd, w).Queued? && ran.Some? ==> lo <= ran.value.ts <= hi))
    || (ready.value.ts < lo && BlockedAfterBoth(sw, rd, lo, hi, w, ready.value.ts))
  }

  ghost predicate BlockedAfterBoth(sw: seq<SwitchRec>, rd: seq<ReadyRec>, lo: int, hi: int, w: Window, ready: int) {
    var off, next := LastBlocked(sw, w.tid, ready, w.end), FirstReady(Cut(rd, ReadyTs, lo, hi), w);
    off.Some? && next.Some? && next.value.ts <= w.start + Slack(w.end - w.start) && next.value.ts < off.value.ts
  }

  /** A late wake-up is judged on a window around it as on the whole trace exactly when the window tells
      of it. The window may end with the wake-up. */
  lemma SameJudgementExactly(sw: seq<SwitchRec>, rd: seq<ReadyRec>, lo: int, hi: int, w: Window)
    requires TimeOrdered(sw, SwitchTs) && TimeOrdered(rd, ReadyTs) && lo <= w.start && w.end <= hi
    ensures Judge(Cut(sw, SwitchTs, lo, hi), Cut(rd, ReadyTs, lo, hi), w) == Judge(sw, rd, w) <==> Tells(sw, rd, lo, hi, w)
  {
    var ready := FirstReady(rd, w);
    FirstInCutExactly(rd, lo, hi, w);
    if w.start < w.end && ready.Some? {
      if lo <= ready.value.ts <= hi {
        SameFirst(sw, rd, lo, hi, w, ready.value);
      } else if ready.value.ts < lo {
        EarlierFirst(sw, rd, lo, hi, w, ready.value);
      } else {
        LaterFirst(rd, lo, hi, w, ready.value);
      }
    }
  }

  /** The first wake-up lies in the window. */
  lemma SameFirst(sw: seq<SwitchRec>, rd: seq<ReadyRec>, lo: int, hi: int, w: Window, ready: ReadyRec)
    requires lo <= w.start < w.end <= hi && FirstReady(rd, w) == Some(ready) && lo <= ready.ts <= hi
    ensures Judge(Cut(sw, SwitchTs, lo, hi), Cut(rd, ReadyTs, lo, hi), w) == Judge(sw, rd, w)
      <==> (Judge(sw, rd, w).Queued? && RanAt(sw, w).Some? ==> lo <= RanAt(sw, w).value.ts <= hi)
  {
    FirstInCutExactly(rd, lo, hi, w);
    LastInCut(sw, lo, hi, BlockedIn(w.tid, ready.ts, w.end));
    LastInCutExactly(sw, lo, hi, RanIn(w));
  }

  /** It lies before. */
  lemma EarlierFirst(sw: seq<SwitchRec>, rd: seq<ReadyRec>, lo: int, hi: int, w: Window, ready: ReadyRec)
    requires TimeOrdered(sw, SwitchTs)
    requires lo <= w.start < w.end <= hi && FirstReady(rd, w) == Some(ready) && ready.ts < lo
    ensures Judge(Cut(sw, SwitchTs, lo, hi), Cut(rd, ReadyTs, lo, hi), w) == Judge(sw, rd, w)
      <==> BlockedAfterBoth(sw, rd, lo, hi, w, ready.ts)
  {
    FirstInCutExactly(rd, lo, hi, w);
    var next := FirstReady(Cut(rd, ReadyTs, lo, hi), w);
    if next.Some? {
      var early, late := BlockedIn(w.tid, ready.ts, w.end), BlockedIn(w.tid, next.value.ts, w.end);
      LastInCut(sw, lo, hi, late);
      LastFacts(sw, early);
      LastFacts(sw, late);
      LastIsNewest(sw, SwitchTs, early);
      assert forall s :: late(s) ==> early(s);
      assert forall s :: early(s) ==> SwitchTs(s) == s.ts;
      if Last(sw, early).Some? && next.value.ts < Last(sw, early).value.ts {
        LastNarrowed(sw, early, late);
      }
    }
  }

  /** It lies after: the window shows none. */
  lemma LaterFirst(rd: seq<ReadyRec>, lo: int, hi: int, w: Window, ready: ReadyRec)
    requires TimeOrdered(rd, ReadyTs) && FirstReady(rd, w) == Some(ready) && hi < ready.ts
    ensures FirstReady(Cut(rd, ReadyTs, lo, hi), w).None?
  {
    FirstInCutExactly(rd, lo, hi, w);
    FirstReadyIsEarliest(rd, w);
  }

  /** What a window that ends too early says instead: of a thread woken after it nothing, and of one that
      ran after it that it queued until some earlier time - on the same processor, if it is pinned. */
  lemma CutShortSays(sw: seq<SwitchRec>, rd: seq<ReadyRec>, lo: int, hi: int, w: Window)
    requires TimeOrdered(rd, ReadyTs) && lo <= w.start < w.end <= hi
    requires FirstReady(rd, w).Some? && lo <= FirstReady(rd, w).value.ts
    ensures var (all, cut) := (Judge(sw, rd, w), Judge(Cut(sw, SwitchTs, lo, hi), Cut(rd, ReadyTs, lo, hi), w));
      && (hi < FirstReady(rd, w).value.ts ==> cut == Unjudged)
      && (FirstReady(rd, w).value.ts <= hi && all.Queued? && hi < all.to ==>
            cut.Queued? && cut.from == all.from && cut.to <= hi && (w.cpu.Some? ==> cut.cpu == all.cpu))
  {
    var ready := FirstReady(rd, w).value;
    if hi < ready.ts {
      LaterFirst(rd, lo, hi, w, ready);
    } else {
      FirstInCutExactly(rd, lo, hi, w);
      LastInCut(sw, lo, hi, BlockedIn(w.tid, ready.ts, w.end));
      LastInCutExactly(sw, lo, hi, RanIn(w));
    }
  }

  /** The same with one record of each kind. */
  lemma JudgeOne(s: SwitchRec, r: ReadyRec, w: Window)
    requires w.start < w.end && s.newTid == w.tid != s.oldTid && RanIn(w)(s)
    requires InRange(w, r) && r.ts <= w.start + Slack(w.end - w.start)
    ensures Judge([s], [r], w) == Queued(r.ts, s.ts, Some(if w.cpu.Some? then w.cpu.value else s.cpu))
    ensures Judge([], [r], w) == Queued(r.ts, w.end, w.cpu)
  {
    assert [s][..0] == [] && [r][..0] == [];
    assert FirstReady([r], w) == Some(r);
    OnlyOne(s, RanIn(w));
    OnlyOne(s, BlockedIn(w.tid, r.ts, w.end));
  }

  lemma CutOne<T(!new)>(x: T, ts: T -> int, lo: int, hi: int)
    ensures Cut([x], ts, lo, hi) == if lo <= ts(x) <= hi then [x] else []
  {
    OnlyOne(x, Within(ts, lo, hi));
  }

  /** A window that stops where the wake-up ended is not enough: the switch that ran the thread just
      after it says on which processor, and until when, it sat in a queue. */
  lemma CutShortJudgesLess()
    ensures var (w, s, r) := (Window(1, None, 0, MS), SwitchRec(MS + 1, 5, 1, 8, 2, STATE_READY, 0), ReadyRec(0, 1, 0, 0));
      && Judge([s], [r], w) == Queued(0, MS + 1, Some(5))
      && Judge(Cut([s], SwitchTs, 0, MS), Cut([r], ReadyTs, 0, MS), w) == Queued(0, MS, None)
  {
    var (w, s, r) := (Window(1, None, 0, MS), SwitchRec(MS + 1, 5, 1, 8, 2, STATE_READY, 0), ReadyRec(0, 1, 0, 0));
    CutOne(s, SwitchTs, 0, MS);
    CutOne(r, ReadyTs, 0, MS);
    JudgeOne(s, r, w);
  }

  // ---- Who held a processor ---------------------------------------------------------------------

  /** The window's lead knows who was on the processor at `t`, or nobody can: some switch on it falls
      in the lead, or there was none at all by then. */
  ghost predicate LeadKnows(sw: seq<SwitchRec>, cpu: nat, lo: int, t: int) {
    (exists s :: s in sw && s.cpu == cpu && lo <= s.ts <= t) || (forall s :: s in sw && s.cpu == cpu ==> t < s.ts)
  }

  lemma NewestOnInCut(sw: seq<SwitchRec>, cpu: nat, lo: int, hi: int, t: int)
    requires TimeOrdered(sw, SwitchTs) && t <= hi
    ensures var all, cut := NewestOn(sw, cpu, t), NewestOn(Cut(sw, SwitchTs, lo, hi), cpu, t);
      cut == if all.Some? && lo <= all.value.ts then all else None
  {
    var within := Within(SwitchTs, lo, hi);
    LastFacts(sw, OnBy(cpu, t));
    LastIsNewest(sw, SwitchTs, OnBy(cpu, t));
    LastOfBoth(sw, within, OnBy(cpu, t));
    LastFacts(Cut(sw, SwitchTs, lo, hi), OnBy(cpu, t));
    FilterMembers(sw, within);
  }

  lemma NewestOnSame(sw: seq<SwitchRec>, cpu: nat, lo: int, hi: int, t: int)
    requires TimeOrdered(sw, SwitchTs) && t <= hi
    ensures NewestOn(Cut(sw, SwitchTs, lo, hi), cpu, t) == NewestOn(sw, cpu, t) <==> LeadKnows(sw, cpu, lo, t)
  {
    NewestOnInCut(sw, cpu, lo, hi, t);
    LastFacts(sw, OnBy(cpu, t));
    LastIsNewest(sw, SwitchTs, OnBy(cpu, t));
    if s :| s in sw && s.cpu == cpu && lo <= s.ts <= t {
      assert OnBy(cpu, t)(s) && SwitchTs(s) <= SwitchTs(NewestOn(sw, cpu, t).value);
    }
  }

  /** At every tick the window shows the thread it knows of, or nobody. */
  lemma {:induction false} TicksAtMost(sw: seq<SwitchRec>, cpu: nat, lo: int, hi: int, from: int, to: int, tid: nat)
    requires TimeOrdered(sw, SwitchTs) && to <= hi + 1
    ensures TicksOf(Cut(sw, SwitchTs, lo, hi), cpu, from, to, tid) <= TicksOf(sw, cpu, from, to, tid)
    ensures from < to && Occupies(sw, cpu, from, tid) && !Occupies(Cut(sw, SwitchTs, lo, hi), cpu, from, tid) ==>
      TicksOf(Cut(sw, SwitchTs, lo, hi), cpu, from, to, tid) < TicksOf(sw, cpu, from, to, tid)
    decreases (to - from)
  {
    if from < to {
      TicksAtMost(sw, cpu, lo, hi, from, to - 1, tid);
      NewestOnInCut(sw, cpu, lo, hi, to - 1);
    }
  }

  lemma {:induction false} TicksSame(sw: seq<SwitchRec>, cpu: nat, lo: int, hi: int, from: int, to: int, tid: nat)
    requires TimeOrdered(sw, SwitchTs) && lo <= from && to <= hi + 1 && LeadKnows(sw, cpu, lo, from)
    ensures TicksOf(Cut(sw, SwitchTs, lo, hi), cpu, from, to, tid) == TicksOf(sw, cpu, from, to, tid)
    decreases (to - from)
  {
    if from < to {
      TicksSame(sw, cpu, lo, hi, from, to - 1, tid);
      LeadStillKnows(sw, cpu, lo, from, to - 1);
      NewestOnSame(sw, cpu, lo, hi, to - 1);
    }
  }

  lemma LeadStillKnows(sw: seq<SwitchRec>, cpu: nat, lo: int, from: int, t: int)
    requires LeadKnows(sw, cpu, lo, from) && lo <= from <= t
    ensures LeadKnows(sw, cpu, lo, t)
  {
    if forall s :: s in sw && s.cpu == cpu ==> from < s.ts {
      if s :| s in sw && s.cpu == cpu && s.ts <= t {
        assert lo <= s.ts <= t;
      }
    } else {
      var s :| s in sw && s.cpu == cpu && lo <= s.ts <= from;
      assert lo <= s.ts <= t;
    }
  }

  /** Both credit every thread with as many ticks. */
  ghost predicate SameTicks(cut: seq<SwitchRec>, all: seq<SwitchRec>, cpu: nat, from: int, to: int) {
    forall tid: nat :: TicksOf(cut, cpu, from, to, tid) == TicksOf(all, cpu, from, to, tid)
  }

  /** A window credits every thread with the ticks the whole trace does exactly when its lead knows who
      was on the processor at the start. */
  lemma TicksSameExactly(sw: seq<SwitchRec>, cpu: nat, lo: int, hi: int, from: int, to: int)
    requires TimeOrdered(sw, SwitchTs) && lo <= from < to <= hi + 1
    ensures SameTicks(Cut(sw, SwitchTs, lo, hi), sw, cpu, from, to) <==> LeadKnows(sw, cpu, lo, from)
  {
    if LeadKnows(sw, cpu, lo, from) {
      forall tid: nat ensures TicksOf(Cut(sw, SwitchTs, lo, hi), cpu, from, to, tid) == TicksOf(sw, cpu, from, to, tid) {
        TicksSame(sw, cpu, lo, hi, from, to, tid);
      }
    } else {
      NewestOnSame(sw, cpu, lo, hi, from);
      NewestOnInCut(sw, cpu, lo, hi, from);
      var tid := NewestOn(sw, cpu, from).value.newTid;
      TicksAtMost(sw, cpu, lo, hi, from, to, tid);
      assert TicksOf(Cut(sw, SwitchTs, lo, hi), cpu, from, to, tid) != TicksOf(sw, cpu, from, to, tid);
    }
  }

  lemma {:induction false} SomeTick(sw: seq<SwitchRec>, cpu: nat, from: int, to: int, tid: nat) returns (t: int)
    requires TicksOf(sw, cpu, from, to, tid) > 0
    ensures from <= t < to && Occupies(sw, cpu, t, tid)
    decreases (to - from)
  {
    if Occupies(sw, cpu, to - 1, tid) {
      t := to - 1;
    } else {
      t := SomeTick(sw, cpu, from, to - 1, tid);
    }
  }

  /** A thread credited with a tick is given the priority the whole trace has for it. */
  lemma OntoSame(sw: seq<SwitchRec>, cpu: nat, lo: int, hi: int, from: int, to: int, tid: nat)
    requires TimeOrdered(sw, SwitchTs) && lo <= from < to <= hi && LeadKnows(sw, cpu, lo, from)
    requires TicksOf(sw, cpu, from, to, tid) > 0
    ensures NewestOnto(Cut(sw, SwitchTs, lo, hi), cpu, to, tid) == NewestOnto(sw, cpu, to, tid)
  {
    var t := SomeTick(sw, cpu, from, to, tid);
    var s := NewestOn(sw, cpu, t).value;
    LeadStillKnows(sw, cpu, lo, from, t);
    NewestOnSame(sw, cpu, lo, hi, t);
    NewestOnInCut(sw, cpu, lo, hi, t);
    LastFacts(sw, OnBy(cpu, t));
    var onto := OntoBy(cpu, to, tid);
    assert onto(s);
    LastFacts(sw, onto);
    LastIsNewest(sw, SwitchTs, onto);
    assert SwitchTs(s) <= SwitchTs(Last(sw, onto).value) <= hi;
    LastOfBoth(sw, Within(SwitchTs, lo, hi), onto);
  }

  /** What the lead must know for a queued thread's outcome. */
  ghost predicate LeadSuffices(sw: seq<SwitchRec>, lo: int, j: Judgement) {
    j.Queued? && j.cpu.Some? && j.from < j.to ==> LeadKnows(sw, j.cpu.value, lo, j.from)
  }

  /** Then an outcome that is right of the window is right of the whole trace, and the other way
      round. */
  lemma SameReport(sw: seq<SwitchRec>, lo: int, hi: int, j: Judgement, tid: nat, o: Outcome)
    requires TimeOrdered(sw, SwitchTs) && LeadSuffices(sw, lo, j) && (j.Queued? ==> lo <= j.from && j.to <= hi)
    ensures Reports(Cut(sw, SwitchTs, lo, hi), j, tid, o) <==> Reports(sw, j, tid, o)
  {
    if j.Queued? && j.cpu.Some? {
      var cut, cpu := Cut(sw, SwitchTs, lo, hi), j.cpu.value;
      forall t: nat ensures TicksOf(cut, cpu, j.from, j.to, t) == TicksOf(sw, cpu, j.from, j.to, t) {
        if j.from < j.to {
          TicksSame(sw, cpu, lo, hi, j.from, j.to, t);
        }
      }
      assert SomeoneElse(cut, cpu, j.from, j.to, tid) <==> SomeoneElse(sw, cpu, j.from, j.to, tid);
      if o.ReadyNotRun? && o.instead.Thread? && j.from < j.to && TicksOf(sw, cpu, j.from, j.to, o.instead.tid) > 0 {
        OntoSame(sw, cpu, lo, hi, j.from, j.to, o.instead.tid);
      }
    }
  }

  // ---- On whole runs ----------------------------------------------------------------------------

  /** What comes after the window does not change it. */
  lemma CutBefore<T(!new)>(s: seq<T>, later: seq<T>, ts: T -> int, lo: int, hi: int)
    requires forall x :: x in later ==> hi < ts(x)
    ensures Cut(s + later, ts, lo, hi) == Cut(s, ts, lo, hi)
  {
    FilterConcat(s, later, Within(ts, lo, hi));
    FilterNone(later, Within(ts, lo, hi));
  }

  /** A covered window of the rings is that window of everything ever delivered, later deliveries
      stamped past it included. */
  lemma WindowStaysWhole(run: seq<Rings.Step>, more: seq<Rings.Step>, switchCap: nat, readyCap: nat, lo: int, hi: int)
    requires Rings.InOrder(run + more) && Evidence.NotBeforeTick(more, hi + 1)
    requires Rings.Covers(Rings.Replay(run, switchCap, readyCap), lo)
    ensures var st := Rings.Replay(run, switchCap, readyCap);
      && Cut(st.switches, SwitchTs, lo, hi) == Cut(Rings.Switches(run + more), SwitchTs, lo, hi)
      && Cut(st.readies, ReadyTs, lo, hi) == Cut(Rings.Readies(run + more), ReadyTs, lo, hi)
    ensures TimeOrdered(Rings.Switches(run + more), SwitchTs) && TimeOrdered(Rings.Readies(run + more), ReadyTs)
  {
    Evidence.OrderAfter(run, more);
    Rings.WindowIsWhole(run, switchCap, readyCap, lo, hi);
    Evidence.Deliveries(run, more, hi + 1);
    CutBefore(Rings.Switches(run), Rings.Switches(more), SwitchTs, lo, hi);
    CutBefore(Rings.Readies(run), Rings.Readies(more), ReadyTs, lo, hi);
    Rings.RunOrdered(run + more, switchCap, readyCap);
  }

  /** Who was kept waiting in a stretch of a covered window is who was by the whole trace. */
  lemma WaitsAreWhole(run: seq<Rings.Step>, more: seq<Rings.Step>, switchCap: nat, readyCap: nat,
                      lo: int, hi: int, from: int, to: int)
    requires Rings.InOrder(run + more) && Evidence.NotBeforeTick(more, hi + 1)
    requires Rings.Covers(Rings.Replay(run, switchCap, readyCap), lo) && lo <= from && to <= hi
    ensures var st := Rings.Replay(run, switchCap, readyCap);
      WindowItems(Cut(st.switches, SwitchTs, lo, hi), Cut(st.readies, ReadyTs, lo, hi), from, to)
      == WindowItems(Rings.Switches(run + more), Rings.Readies(run + more), from, to)
  {
    WindowStaysWhole(run, more, switchCap, readyCap, lo, hi);
    SameWaits(Rings.Switches(run + more), Rings.Readies(run + more), lo, hi, from, to);
  }

  /** A late wake-up is judged on a covered window around it as on the whole trace exactly when the window
      tells of it; and then the outcome of one whose queue the lead knows is right of the whole trace
      whenever it is right of the window, and the other way round. */
  lemma JudgementIsWhole(run: seq<Rings.Step>, more: seq<Rings.Step>, switchCap: nat, readyCap: nat,
                         lo: int, hi: int, w: Window, o: Outcome)
    requires Rings.InOrder(run + more) && Evidence.NotBeforeTick(more, hi + 1)
    requires Rings.Covers(Rings.Replay(run, switchCap, readyCap), lo) && lo <= w.start && w.end <= hi
    ensures var st := Rings.Replay(run, switchCap, readyCap);
      var (sw, rd) := (Cut(st.switches, SwitchTs, lo, hi), Cut(st.readies, ReadyTs, lo, hi));
      var (allSw, allRd) := (Rings.Switches(run + more), Rings.Readies(run + more));
      && (Judge(sw, rd, w) == Judge(allSw, allRd, w) <==> Tells(allSw, allRd, lo, hi, w))
      && (Tells(allSw, allRd, lo, hi, w) && LeadSuffices(allSw, lo, Judge(allSw, allRd, w)) ==>
            (Reports(sw, Judge(sw, rd, w), w.tid, o) <==> Reports(allSw, Judge(allSw, allRd, w), w.tid, o)))
  {
    var (allSw, allRd) := (Rings.Switches(run + more), Rings.Readies(run + more));
    WindowStaysWhole(run, more, switchCap, readyCap, lo, hi);
    SameJudgementExactly(allSw, allRd, lo, hi, w);
    if Tells(allSw, allRd, lo, hi, w) && LeadSuffices(allSw, lo, Judge(allSw, allRd, w)) {
      SameReport(allSw, lo, hi, Judge(allSw, allRd, w), w.tid, o);
    }
  }

  /** Who held a processor over a stretch of a covered window is who did by the whole trace, tick for
      tick and for every thread, exactly when the lead knows who was on it at the start. */
  lemma HoldersAreWholeExactly(run: seq<Rings.Step>, more: seq<Rings.Step>, switchCap: nat, readyCap: nat,
                               lo: int, hi: int, cpu: nat, from: int, to: int)
    requires Rings.InOrder(run + more) && Evidence.NotBeforeTick(more, hi + 1)
    requires Rings.Covers(Rings.Replay(run, switchCap, readyCap), lo) && lo <= from < to <= hi
    ensures var (cut, all) := (Cut(Rings.Replay(run, switchCap, readyCap).switches, SwitchTs, lo, hi), Rings.Switches(run + more));
      SameTicks(cut, all, cpu, from, to) <==> LeadKnows(all, cpu, lo, from)
  {
    var all := Rings.Switches(run + more);
    WindowStaysWhole(run, more, switchCap, readyCap, lo, hi);
    TicksSameExactly(all, cpu, lo, hi, from, to);
  }
}
