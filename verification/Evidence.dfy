/** The bounded rings against the unbounded trace: what is concluded about a slow request from
    the few records copied out of the rings is what the whole trace would have said. */
module Evidence {
  import opened Trace
  import opened Seqs
  import opened Rings
  import opened DiskStuck

  // ---- Restricting the trace --------------------------------------------------------------------

  /** Wake-ups that tell nothing may be left out. */
  lemma {:induction false} FewerWakeups<J(!new)>(
      judge: ReadyRec -> Option<J>, tidOf: J -> nat, rd: seq<ReadyRec>, keep: ReadyRec -> bool)
    requires forall r :: r in rd && judge(r).Some? ==> keep(r)
    ensures FirstTellings(judge, tidOf, Filter(rd, keep)) == FirstTellings(judge, tidOf, rd)
  {
    if rd != [] {
      var init, r := rd[..|rd| - 1], rd[|rd| - 1];
      assert forall x :: x in init ==> x in rd;
      assert r in rd;
      FewerWakeups(judge, tidOf, init, keep);
      if keep(r) {
        assert (Filter(init, keep) + [r])[..|Filter(init, keep)|] == Filter(init, keep);
      }
    }
  }

  lemma {:induction false} SameJudgement<J(!new)>(
      judge: ReadyRec -> Option<J>, judge': ReadyRec -> Option<J>, tidOf: J -> nat, rd: seq<ReadyRec>)
    requires forall r :: r in rd ==> judge(r) == judge'(r)
    ensures FirstTellings(judge, tidOf, rd) == FirstTellings(judge', tidOf, rd)
  {
    if rd != [] {
      var init, r := rd[..|rd| - 1], rd[|rd| - 1];
      assert forall x :: x in init ==> x in rd;
      assert r in rd;
      SameJudgement(judge, judge', tidOf, init);
    }
  }

  /** Two readings of two lists of wake-ups agree when those that can tell are the same, and tell the
      same. */
  lemma SameTellings<J(!new)>(ours: ReadyRec -> Option<J>, whole: ReadyRec -> Option<J>, tidOf: J -> nat,
                              copied: seq<ReadyRec>, all: seq<ReadyRec>, keep: ReadyRec -> bool)
    requires forall r :: ours(r).Some? || whole(r).Some? ==> keep(r)
    requires Filter(copied, keep) == Filter(all, keep)
    requires forall r :: r in Filter(copied, keep) ==> ours(r) == whole(r)
    ensures FirstTellings(ours, tidOf, copied) == FirstTellings(whole, tidOf, all)
  {
    FewerWakeups(ours, tidOf, copied, keep);
    FewerWakeups(whole, tidOf, all, keep);
    SameJudgement(ours, whole, tidOf, Filter(copied, keep));
  }

  lemma NewestOffFacts(sw: seq<SwitchRec>, tid: nat, at: int)
    ensures var off := NewestOff(sw, tid, at);
      off.Some? ==> off.value in sw && off.value.oldTid == tid && off.value.ts <= at
  {
    LastFacts(sw, OffBy(tid, at));
  }

  /** Switches later than the wake-up do not change which wait it ended. */
  lemma NewestOffLater(sw: seq<SwitchRec>, later: seq<SwitchRec>, tid: nat, at: int)
    requires forall s :: s in later ==> s.ts > at
    ensures NewestOff(sw + later, tid, at) == NewestOff(sw, tid, at)
  {
    LastFacts(later, OffBy(tid, at));
    LastConcat(sw, later, OffBy(tid, at));
  }

  /** Keeping only the woken threads' switches since `start` keeps every wait that began since
      `start`, and turns every other into none at all. */
  lemma {:induction false} NewestOffRestricted(sw: seq<SwitchRec>, tids: set<nat>, start: int, to: int, tid: nat, at: int)
    requires TimeOrdered(sw, SwitchTs) && tid in tids && at <= to
    ensures var off := NewestOff(sw, tid, at);
      NewestOff(Filter(sw, OffIn(tids, start, to)), tid, at)
      == if off.Some? && off.value.ts >= start then off else None
  {
    var p := OffIn(tids, start, to);
    if sw != [] {
      var init, last := sw[..|sw| - 1], sw[|sw| - 1];
      assert TimeOrdered(init, SwitchTs);
      NewestOffRestricted(init, tids, start, to, tid, at);
      if p(last) {
        assert (Filter(init, p) + [last])[..|Filter(init, p)|] == Filter(init, p);
      } else if last.oldTid == tid && last.ts <= at {
        forall s | s in init ensures !p(s) {
          var k :| 0 <= k < |init| && init[k] == s;
          assert SwitchTs(sw[k]) <= SwitchTs(sw[|sw| - 1]);
        }
        FilterNone(init, p);
      }
    }
  }

  // ---- What comes later -------------------------------------------------------------------------

  /** Every stamp in `more` is at least `at`. */
  ghost predicate NotBeforeTick(more: seq<Step>, at: int) {
    forall i :: 0 <= i < |more| && more[i].Stamp().Some? ==> at <= more[i].Stamp().value
  }

  lemma {:induction false} OrderAfter(run: seq<Step>, more: seq<Step>)
    requires InOrder(run + more)
    ensures InOrder(run) && Newest(run) <= Newest(run + more) && NotBeforeTick(more, Newest(run))
  {
    if more == [] {
      assert run + more == run;
    } else {
      var init := more[..|more| - 1];
      assert (run + more)[..|run + more| - 1] == run + init;
      OrderAfter(run, init);
      forall i | 0 <= i < |more| && more[i].Stamp().Some? ensures Newest(run) <= more[i].Stamp().value {
        assert i < |init| ==> more[i] == init[i];
      }
    }
  }

  /** What was delivered by the end is what was delivered so far, and what came after. */
  lemma {:induction false} DeliveredInAll(run: seq<Step>, more: seq<Step>)
    ensures Switches(run + more) == Switches(run) + Switches(more)
    ensures Readies(run + more) == Readies(run) + Readies(more)
    ensures Requests(run + more) == Requests(run) + Requests(more)
  {
    if more == [] {
      assert run + more == run;
    } else {
      var init := more[..|more| - 1];
      assert (run + more)[..|run + more| - 1] == run + init;
      DeliveredInAll(run, init);
    }
  }

  lemma {:induction false} DeliveredLater(more: seq<Step>, at: int)
    requires NotBeforeTick(more, at)
    ensures forall s :: s in Switches(more) ==> at <= s.ts
    ensures forall r :: r in Readies(more) ==> at <= r.ts
    ensures forall i :: i in Requests(more) ==> at <= i.end
  {
    if more != [] {
      var init, last := more[..|more| - 1], more[|more| - 1];
      assert forall i :: 0 <= i < |init| ==> init[i] == more[i];
      DeliveredLater(init, at);
      assert last.Stamp().Some? ==> at <= last.Stamp().value;
    }
  }

  lemma Deliveries(run: seq<Step>, more: seq<Step>, at: int)
    requires NotBeforeTick(more, at)
    ensures Switches(run + more) == Switches(run) + Switches(more)
    ensures Readies(run + more) == Readies(run) + Readies(more)
    ensures Requests(run + more) == Requests(run) + Requests(more)
    ensures forall s :: s in Switches(more) ==> at <= s.ts
    ensures forall r :: r in Readies(more) ==> at <= r.ts
    ensures forall i :: i in Requests(more) ==> at <= i.end
  {
    DeliveredInAll(run, more);
    DeliveredLater(more, at);
  }

  // ---- The records copied out -------------------------------------------------------------------

  /** The requests the source looks at as possible rivals. */
  function Near(st: State, slow: IoRec): seq<IoRec> {
    Filter(st.ios, Within(IoEnd, slow.end - slow.dur, slow.end + READY_AFTER))
  }

  function Recs(st: State, slow: IoRec): Option<(seq<SwitchRec>, seq<ReadyRec>)> {
    RecordsBehind(st, slow.end - slow.dur, slow.end, READY_BEFORE, LOOK_AFTER)
  }

  /** Who was stuck, and behind which locks, as read off the copied records. */
  function StuckOnCopy(st: State, slow: IoRec): seq<Stuck>
    requires Recs(st, slow).Some?
  {
    var recs := Recs(st, slow).value;
    StuckBehindOf(slow, Near(st, slow), recs.0, recs.1)
  }

  function ChainsOnCopy(st: State, slow: IoRec): seq<LockChain>
    requires Recs(st, slow).Some?
  {
    var recs := Recs(st, slow).value;
    LockChainsOf(slow, StuckOnCopy(st, slow), recs.0, recs.1)
  }

  /** A wake-up inside the looked-at stretch and not before the request began. */
  function Telling(slow: IoRec, to: int): ReadyRec -> bool {
    (r: ReadyRec) => slow.end - slow.dur <= r.ts && slow.end - READY_BEFORE <= r.ts <= to
  }

  /** The rings hold all of `sw`, `rd` and `ios` from `start` on. */
  ghost predicate Whole(st: State, start: int, sw: seq<SwitchRec>, rd: seq<ReadyRec>, ios: seq<IoRec>) {
    && TimeOrdered(sw, SwitchTs)
    && Filter(st.switches, From(SwitchTs, start)) == Filter(sw, From(SwitchTs, start))
    && Filter(st.readies, From(ReadyTs, start)) == Filter(rd, From(ReadyTs, start))
    && Filter(st.ios, From(IoEnd, start)) == Filter(ios, From(IoEnd, start))
  }

  /** Filtering by anything that implies "not before `from`" may as well start from there. */
  lemma FilterFrom<T(!new)>(ring: seq<T>, all: seq<T>, ts: T -> int, from: int, p: T -> bool)
    requires Filter(ring, From(ts, from)) == Filter(all, From(ts, from))
    requires forall x :: p(x) ==> from <= ts(x)
    ensures Filter(ring, p) == Filter(all, p)
  {
    FilterTwice(ring, From(ts, from), p, p);
    FilterTwice(all, From(ts, from), p, p);
  }

  /** The copied switches, in terms of all of them. */
  lemma CopiedSwitches(st: State, slow: IoRec, sw: seq<SwitchRec>, rd: seq<ReadyRec>, ios: seq<IoRec>)
    requires Whole(st, slow.end - slow.dur, sw, rd, ios) && Recs(st, slow).Some?
    ensures Recs(st, slow).value.0 ==
      Filter(sw, OffIn(Tids(Recs(st, slow).value.1), slow.end - slow.dur, slow.end + LOOK_AFTER))
  {
    var start, tids := slow.end - slow.dur, Tids(Recs(st, slow).value.1);
    FilterFrom(st.switches, sw, SwitchTs, start, OffIn(tids, start, slow.end + LOOK_AFTER));
  }

  /** The copied wake-ups that can tell anything are all those delivered that can. */
  lemma CopiedWakeups(st: State, slow: IoRec, hi: int, sw: seq<SwitchRec>, rd: seq<ReadyRec>, ios: seq<IoRec>)
    requires Whole(st, slow.end - slow.dur, sw, rd, ios) && Recs(st, slow).Some? && hi <= slow.end + LOOK_AFTER
    ensures Filter(Recs(st, slow).value.1, Telling(slow, hi)) == Filter(rd, Telling(slow, hi))
  {
    var keep := Telling(slow, hi);
    FilterFrom(st.readies, rd, ReadyTs, slow.end - slow.dur, keep);
    FilterTwice(st.readies, Within(ReadyTs, slow.end - READY_BEFORE, slow.end + LOOK_AFTER), keep, keep);
  }

  /** A wait found in the copied switches is the one the whole trace has, when it matters. */
  lemma SameWait(sw: seq<SwitchRec>, later: seq<SwitchRec>, tids: set<nat>, start: int, to: int, tid: nat, at: int)
    requires TimeOrdered(sw, SwitchTs) && tid in tids && at <= to
    requires forall s :: s in later ==> at < s.ts
    ensures var whole := WaitBefore(sw + later, tid, at);
      WaitBefore(Filter(sw, OffIn(tids, start, to)), tid, at)
      == if whole.Some? && whole.value.ts >= start then whole else None
  {
    NewestOffLater(sw, later, tid, at);
    NewestOffRestricted(sw, tids, start, to, tid, at);
  }

  lemma RivalInReach(slow: IoRec, o: IoRec, r: ReadyRec, off: SwitchRec)
    requires Rival(slow, o, r, off) && slow.end - slow.dur <= off.ts
    ensures slow.end - slow.dur <= IoEnd(o) <= slow.end + READY_AFTER
  {}

  /** A request that could explain the wake-up of a wait begun since `slow` did is near. */
  lemma SameRivals(ring: seq<IoRec>, ios: seq<IoRec>, later: seq<IoRec>, slow: IoRec, r: ReadyRec, off: SwitchRec)
    requires Filter(ring, From(IoEnd, slow.end - slow.dur)) == Filter(ios, From(IoEnd, slow.end - slow.dur))
    requires forall o :: o in later ==> slow.end + READY_AFTER < o.end
    requires slow.end - slow.dur <= off.ts
    ensures HasRival(slow, Filter(ring, Within(IoEnd, slow.end - slow.dur, slow.end + READY_AFTER)), r, off)
      <==> HasRival(slow, ios + later, r, off)
  {
    var p := Within(IoEnd, slow.end - slow.dur, slow.end + READY_AFTER);
    WithinFrom(ring, ios, IoEnd, slow.end - slow.dur, slow.end + READY_AFTER);
    FilterMembers(ios, p);
    if o :| o in ios + later && Rival(slow, o, r, off) {
      RivalInReach(slow, o, r, off);
      assert o !in later;
      assert o in ios;
    }
  }

  // ---- The theorems -----------------------------------------------------------------------------

  ghost predicate HasRival(slow: IoRec, others: seq<IoRec>, r: ReadyRec, off: SwitchRec) {
    exists o :: o in others && Rival(slow, o, r, off)
  }

  /** Judging needs only the wait the wake-up ended, if it began since the request did, and whether
      that has a rival. */
  lemma JudgeFrom(slow: IoRec, few: seq<IoRec>, copied: seq<SwitchRec>, others: seq<IoRec>, sw: seq<SwitchRec>, r: ReadyRec)
    requires var off := WaitBefore(sw, r.tid, r.ts);
      && WaitBefore(copied, r.tid, r.ts) == (if off.Some? && off.value.ts >= slow.end - slow.dur then off else None)
      && (off.Some? && off.value.ts >= slow.end - slow.dur ==>
            (HasRival(slow, few, r, off.value) <==> HasRival(slow, others, r, off.value)))
    ensures Judge(slow, few, copied, r) == Judge(slow, others, sw, r)
  {
    var off := WaitBefore(sw, r.tid, r.ts);
    if off.Some? && off.value.ts >= slow.end - slow.dur {
      assert HasRival(slow, few, r, off.value) <==> exists o :: o in few && Rival(slow, o, r, off.value);
      assert HasRival(slow, others, r, off.value) <==> exists o :: o in others && Rival(slow, o, r, off.value);
    }
  }

  /** The wait a wake-up in the looked-at stretch ended, on the copy and on everything. */
  lemma SameWaitOnCopy(st: State, slow: IoRec, sw: seq<SwitchRec>, rd: seq<ReadyRec>, ios: seq<IoRec>,
                       laterSw: seq<SwitchRec>, r: ReadyRec)
    requires Whole(st, slow.end - slow.dur, sw, rd, ios) && Recs(st, slow).Some?
    requires r in Recs(st, slow).value.1 && r.ts <= slow.end + LOOK_AFTER
    requires forall s :: s in laterSw ==> r.ts < s.ts
    ensures var whole := WaitBefore(sw + laterSw, r.tid, r.ts);
      WaitBefore(Recs(st, slow).value.0, r.tid, r.ts)
      == if whole.Some? && whole.value.ts >= slow.end - slow.dur then whole else None
  {
    var tids := Tids(Recs(st, slow).value.1);
    CopiedSwitches(st, slow, sw, rd, ios);
    SameWait(sw, laterSw, tids, slow.end - slow.dur, slow.end + LOOK_AFTER, r.tid, r.ts);
  }

  /** What one wake-up says is the same on the copy and on everything, later records included. */
  lemma SameStuckJudgement(st: State, slow: IoRec, sw: seq<SwitchRec>, rd: seq<ReadyRec>, ios: seq<IoRec>,
                           laterSw: seq<SwitchRec>, laterIos: seq<IoRec>, r: ReadyRec)
    requires Whole(st, slow.end - slow.dur, sw, rd, ios) && Recs(st, slow).Some? && r in Recs(st, slow).value.1
    requires forall s :: s in laterSw ==> slow.end + READY_AFTER < s.ts
    requires forall o :: o in laterIos ==> slow.end + READY_AFTER < o.end
    ensures Judge(slow, Near(st, slow), Recs(st, slow).value.0, r) == Judge(slow, ios + laterIos, sw + laterSw, r)
  {
    if slow.end - READY_BEFORE <= r.ts <= slow.end + READY_AFTER {
      LookAfterReaches();
      SameWaitOnCopy(st, slow, sw, rd, ios, laterSw, r);
      var off := WaitBefore(sw + laterSw, r.tid, r.ts);
      if off.Some? && off.value.ts >= slow.end - slow.dur {
        SameRivals(st.ios, ios, laterIos, slow, r, off.value);
      }
      JudgeFrom(slow, Near(st, slow), Recs(st, slow).value.0, ios + laterIos, sw + laterSw, r);
    }
  }

  lemma SameStuck(st: State, slow: IoRec, sw: seq<SwitchRec>, rd: seq<ReadyRec>, ios: seq<IoRec>,
                  laterSw: seq<SwitchRec>, laterRd: seq<ReadyRec>, laterIos: seq<IoRec>)
    requires Whole(st, slow.end - slow.dur, sw, rd, ios) && Recs(st, slow).Some?
    requires forall s :: s in laterSw ==> slow.end + READY_AFTER < s.ts
    requires forall r :: r in laterRd ==> slow.end + READY_AFTER < r.ts
    requires forall o :: o in laterIos ==> slow.end + READY_AFTER < o.end
    ensures StuckOnCopy(st, slow)
      == StuckBehindOf(slow, ios + laterIos, sw + laterSw, rd + laterRd)
  {
    var (sw', rd') := Recs(st, slow).value;
    var keep := Telling(slow, slow.end + READY_AFTER);
    var ours, whole := Judged(slow, Near(st, slow), sw'), Judged(slow, ios + laterIos, sw + laterSw);
    forall r, s, o | Judge(slow, o, s, r).Some? ensures keep(r) {
      NewestOffFacts(s, r.tid, r.ts);
    }
    assert Filter(rd', keep) == Filter(rd + laterRd, keep) by {
      LookAfterReaches();
      CopiedWakeups(st, slow, slow.end + READY_AFTER, sw, rd, ios);
      FilterConcat(rd, laterRd, keep);
      FilterNone(laterRd, keep);
    }
    FilterMembers(rd', keep);
    forall r | r in Filter(rd', keep) ensures ours(r) == whole(r) {
      SameStuckJudgement(st, slow, sw, rd, ios, laterSw, laterIos, r);
    }
    SameTellings(ours, whole, StuckTid, rd', rd + laterRd, keep);
  }

  lemma RecsCover(st: State, slow: IoRec)
    requires Recs(st, slow).Some?
    ensures Covers(st, slow.end - slow.dur) && slow.end + LOOK_AFTER <= st.latest
  {}

  lemma {:induction false} CoveredIsWhole(run: seq<Step>, switchCap: nat, readyCap: nat, start: int)
    requires InOrder(run) && LongKept(run) && Covers(Replay(run, switchCap, readyCap), start)
    ensures Whole(Replay(run, switchCap, readyCap), start, Switches(run), Readies(run), Requests(run))
  {
    RunOrdered(run, switchCap, readyCap);
    CoverageIsSound(run, switchCap, readyCap, start);
  }

  /** Rings that hand out records are whole from the request's start, and the trace has gone past the
      look-ahead. */
  lemma {:induction false} RunIsWhole(run: seq<Step>, switchCap: nat, readyCap: nat, slow: IoRec)
    requires InOrder(run) && LongKept(run) && Recs(Replay(run, switchCap, readyCap), slow).Some?
    ensures Whole(Replay(run, switchCap, readyCap), slow.end - slow.dur, Switches(run), Readies(run), Requests(run))
    ensures slow.end + LOOK_AFTER <= Newest(run)
  {
    RunOrdered(run, switchCap, readyCap);
    RecsCover(Replay(run, switchCap, readyCap), slow);
    CoveredIsWhole(run, switchCap, readyCap, slow.end - slow.dur);
  }

  lemma StuckAnswerFrom(st: State, slow: IoRec, run: seq<Step>, more: seq<Step>)
    requires Whole(st, slow.end - slow.dur, Switches(run), Readies(run), Requests(run)) && Recs(st, slow).Some?
    requires NotBeforeTick(more, slow.end + LOOK_AFTER)
    ensures StuckOnCopy(st, slow) == StuckBehindOf(slow, Requests(run + more), Switches(run + more), Readies(run + more))
  {
    Deliveries(run, more, slow.end + LOOK_AFTER);
    LookAfterReaches();
    SameStuck(st, slow, Switches(run), Readies(run), Requests(run), Switches(more), Readies(more), Requests(more));
  }

  /** Whenever the rings hand out records at all, the threads found stuck behind `slow` on that
      restricted copy are those the entire trace and request history would give - and nothing
      delivered later, of any kind, can change the answer. */
  lemma StuckAnswerIsFinal(run: seq<Step>, more: seq<Step>, switchCap: nat, readyCap: nat, slow: IoRec)
    requires InOrder(run + more) && LongKept(run)
    requires Recs(Replay(run, switchCap, readyCap), slow).Some?
    ensures StuckOnCopy(Replay(run, switchCap, readyCap), slow)
      == StuckBehindOf(slow, Requests(run + more), Switches(run + more), Readies(run + more))
  {
    OrderAfter(run, more);
    RunIsWhole(run, switchCap, readyCap, slow);
    assert NotBeforeTick(more, slow.end + LOOK_AFTER);
    StuckAnswerFrom(Replay(run, switchCap, readyCap), slow, run, more);
  }

  /** Every thread found stuck was woken around the completion. */
  lemma StuckWokenInRange(slow: IoRec, others: seq<IoRec>, sw: seq<SwitchRec>, rd: seq<ReadyRec>, s: Stuck)
    requires s in StuckBehindOf(slow, others, sw, rd)
    ensures slow.end - READY_BEFORE <= s.wokeAt <= slow.end + READY_AFTER
    ensures slow.end - slow.dur <= s.wokeAt
  {
    StuckBehindMeaning(slow, others, sw, rd);
    var judge := Judged(slow, others, sw);
    var j: nat :| Says(judge, rd, j, s);
    NewestOffFacts(sw, rd[j].tid, rd[j].ts);
  }

  lemma {:induction false} FindStuckFacts(stuck: seq<Stuck>, tid: nat)
    ensures FindStuck(stuck, tid).Some? ==> FindStuck(stuck, tid).value in stuck
  {
    if stuck != [] {
      FindStuckFacts(stuck[1..], tid);
    }
  }

  ghost predicate WokenInRange(slow: IoRec, stuck: seq<Stuck>) {
    forall s :: s in stuck ==>
      slow.end - READY_BEFORE <= s.wokeAt <= slow.end + READY_AFTER && slow.end - slow.dur <= s.wokeAt
  }

  lemma AllWokenInRange(slow: IoRec, others: seq<IoRec>, sw: seq<SwitchRec>, rd: seq<ReadyRec>)
    ensures WokenInRange(slow, StuckBehindOf(slow, others, sw, rd))
  {
    forall s | s in StuckBehindOf(slow, others, sw, rd)
      ensures slow.end - READY_BEFORE <= s.wokeAt <= slow.end + READY_AFTER && slow.end - slow.dur <= s.wokeAt
    {
      StuckWokenInRange(slow, others, sw, rd, s);
    }
  }

  /** A wake-up that tells of a lock falls inside the looked-at stretch. */
  lemma LockTellingInRange(slow: IoRec, stuck: seq<Stuck>, sw: seq<SwitchRec>, r: ReadyRec)
    requires WokenInRange(slow, stuck) && JudgeLock(slow, stuck, sw, r).Some?
    ensures Telling(slow, slow.end + LOOK_AFTER)(r)
  {
    LookAfterReaches();
    FindStuckFacts(stuck, r.Waker().value);
  }

  lemma SameLockJudgement(st: State, slow: IoRec, sw: seq<SwitchRec>, rd: seq<ReadyRec>, ios: seq<IoRec>,
                          laterSw: seq<SwitchRec>, stuck: seq<Stuck>, r: ReadyRec)
    requires Whole(st, slow.end - slow.dur, sw, rd, ios) && Recs(st, slow).Some?
    requires r in Recs(st, slow).value.1 && r.ts <= slow.end + LOOK_AFTER
    requires forall s :: s in laterSw ==> slow.end + LOOK_AFTER < s.ts
    ensures JudgeLock(slow, stuck, Recs(st, slow).value.0, r) == JudgeLock(slow, stuck, sw + laterSw, r)
  {
    SameWaitOnCopy(st, slow, sw, rd, ios, laterSw, r);
  }

  lemma SameChains(st: State, slow: IoRec, sw: seq<SwitchRec>, rd: seq<ReadyRec>, ios: seq<IoRec>,
                   laterSw: seq<SwitchRec>, laterRd: seq<ReadyRec>, stuck: seq<Stuck>)
    requires Whole(st, slow.end - slow.dur, sw, rd, ios) && Recs(st, slow).Some? && WokenInRange(slow, stuck)
    requires forall s :: s in laterSw ==> slow.end + LOOK_AFTER < s.ts
    requires forall r :: r in laterRd ==> slow.end + LOOK_AFTER < r.ts
    ensures LockChainsOf(slow, stuck, Recs(st, slow).value.0, Recs(st, slow).value.1)
      == LockChainsOf(slow, stuck, sw + laterSw, rd + laterRd)
  {
    var (sw', rd') := Recs(st, slow).value;
    var keep := Telling(slow, slow.end + LOOK_AFTER);
    var ours, whole := JudgedLock(slow, stuck, sw'), JudgedLock(slow, stuck, sw + laterSw);
    forall r, s | JudgeLock(slow, stuck, s, r).Some? ensures keep(r) {
      LockTellingInRange(slow, stuck, s, r);
    }
    assert Filter(rd', keep) == Filter(rd + laterRd, keep) by {
      CopiedWakeups(st, slow, slow.end + LOOK_AFTER, sw, rd, ios);
      FilterConcat(rd, laterRd, keep);
      FilterNone(laterRd, keep);
    }
    FilterMembers(rd', keep);
    forall r | r in Filter(rd', keep) ensures ours(r) == whole(r) {
      SameLockJudgement(st, slow, sw, rd, ios, laterSw, stuck, r);
    }
    SameTellings(ours, whole, ChainTid, rd', rd + laterRd, keep);
  }

  lemma SameLockAnswer(st: State, slow: IoRec, sw: seq<SwitchRec>, rd: seq<ReadyRec>, ios: seq<IoRec>,
                       laterSw: seq<SwitchRec>, laterRd: seq<ReadyRec>)
    requires Whole(st, slow.end - slow.dur, sw, rd, ios) && Recs(st, slow).Some?
    requires forall s :: s in laterSw ==> slow.end + LOOK_AFTER < s.ts
    requires forall r :: r in laterRd ==> slow.end + LOOK_AFTER < r.ts
    ensures ChainsOnCopy(st, slow) == LockChainsOf(slow, StuckOnCopy(st, slow), sw + laterSw, rd + laterRd)
  {
    var recs := Recs(st, slow).value;
    AllWokenInRange(slow, Near(st, slow), recs.0, recs.1);
    SameChains(st, slow, sw, rd, ios, laterSw, laterRd, StuckOnCopy(st, slow));
  }

  lemma LockAnswerFrom(st: State, slow: IoRec, run: seq<Step>, more: seq<Step>)
    requires Whole(st, slow.end - slow.dur, Switches(run), Readies(run), Requests(run)) && Recs(st, slow).Some?
    requires NotBeforeTick(more, slow.end + LOOK_AFTER + 1)
    ensures ChainsOnCopy(st, slow) == LockChainsOf(slow, StuckOnCopy(st, slow), Switches(run + more), Readies(run + more))
  {
    Deliveries(run, more, slow.end + LOOK_AFTER + 1);
    SameLockAnswer(st, slow, Switches(run), Readies(run), Requests(run), Switches(more), Readies(more));
  }

  /** The lock chains found on the restricted copy are those of everything delivered so far; they
      stay so as long as what comes later is stamped past the look-ahead, not on its last tick. */
  lemma LockAnswerIsWhole(run: seq<Step>, more: seq<Step>, switchCap: nat, readyCap: nat, slow: IoRec)
    requires InOrder(run) && LongKept(run) && NotBeforeTick(more, slow.end + LOOK_AFTER + 1)
    requires Recs(Replay(run, switchCap, readyCap), slow).Some?
    ensures var st := Replay(run, switchCap, readyCap);
      ChainsOnCopy(st, slow) == LockChainsOf(slow, StuckOnCopy(st, slow), Switches(run + more), Readies(run + more))
  {
    RunIsWhole(run, switchCap, readyCap, slow);
    LockAnswerFrom(Replay(run, switchCap, readyCap), slow, run, more);
  }
}
