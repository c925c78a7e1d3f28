/** When the lock chains found behind a slow request can no longer change, whatever is delivered. */
module Finality {
  import opened Trace
  import opened Seqs
  import opened Rings
  import opened DiskStuck
  import opened Evidence

  /** The last tick of the look-ahead. */
  function LastTick(slow: IoRec): int { slow.end + LOOK_AFTER }

  /** No in-order continuation of the trace changes the chains. */
  ghost predicate ChainsFinal(run: seq<Step>, st: State, slow: IoRec)
    requires Recs(st, slow).Some?
  {
    forall more: seq<Step> :: Unchanged(run, more, st, slow)
  }

  ghost predicate Unchanged(run: seq<Step>, more: seq<Step>, st: State, slow: IoRec)
    requires Recs(st, slow).Some?
  {
    InOrder(run + more) ==>
      LockChainsOf(slow, StuckOnCopy(st, slow), Switches(run + more), Readies(run + more)) == ChainsOnCopy(st, slow)
  }

  /** On the last tick the thread is in a lock wait that is long enough to be felt and began after the
      request did and before the holder was woken. */
  predicate LockedOut(sw: seq<SwitchRec>, slow: IoRec, holder: Stuck, tid: nat) {
    var off := WaitBefore(sw, tid, LastTick(slow));
    && off.Some? && slow.end - slow.dur <= off.value.ts < holder.wokeAt
    && LockWait(off.value.oldReason) && LastTick(slow) - off.value.ts >= STUCK_MIN
  }

  /** A thread not reported yet that this stuck thread could still wake on the last tick. */
  ghost predicate CouldStillTell(st: State, slow: IoRec, holder: Stuck, tid: nat)
    requires Recs(st, slow).Some?
  {
    && holder in StuckOnCopy(st, slow) && holder.wokeAt + LOCK_AFTER >= LastTick(slow)
    && !Names(StuckOnCopy(st, slow), StuckTid, tid) && !Names(ChainsOnCopy(st, slow), ChainTid, tid)
    && LockedOut(st.switches, slow, holder, tid)
  }

  /** A chain told of on the very last tick: a switch stamped with it could still take it back. */
  ghost predicate ToldAtTheLast(st: State, slow: IoRec)
    requires Recs(st, slow).Some?
  {
    exists c :: c in ChainsOnCopy(st, slow) && c.wokeAt == LastTick(slow)
  }

  /** What could still change the chains, in what the rings hold. */
  ghost predicate StillOpen(st: State, slow: IoRec)
    requires Recs(st, slow).Some?
  {
    ToldAtTheLast(st, slow) || exists holder: Stuck, tid: nat :: CouldStillTell(st, slow, holder, tid)
  }

  // ---- First tellings under a changing judgement ------------------------------------------------

  ghost predicate SameOrNamed<J(!new)>(judge: ReadyRec -> Option<J>, judge': ReadyRec -> Option<J>, tidOf: J -> nat, rd: seq<ReadyRec>, i: nat)
    requires i < |rd|
  {
    judge(rd[i]) == judge'(rd[i]) || Names(FirstTellings(judge, tidOf, rd[..i]), tidOf, rd[i].tid)
  }

  /** Judging a wake-up differently does not matter once its thread is named. */
  lemma {:induction false} SameFirst<J(!new)>(judge: ReadyRec -> Option<J>, judge': ReadyRec -> Option<J>, tidOf: J -> nat, rd: seq<ReadyRec>)
    requires forall i: nat :: i < |rd| ==> SameOrNamed(judge, judge', tidOf, rd, i)
    ensures FirstTellings(judge', tidOf, rd) == FirstTellings(judge, tidOf, rd)
  {
    if rd != [] {
      var init := rd[..|rd| - 1];
      forall i: nat | i < |init| ensures SameOrNamed(judge, judge', tidOf, init, i) {
        assert SameOrNamed(judge, judge', tidOf, rd, i) && init[..i] == rd[..i];
      }
      SameFirst(judge, judge', tidOf, init);
      assert SameOrNamed(judge, judge', tidOf, rd, |init|);
    }
  }

  /** Wake-ups that tell nothing, or of threads already named, add nothing. */
  lemma {:induction false} NothingNew<J(!new)>(judge: ReadyRec -> Option<J>, tidOf: J -> nat, rd: seq<ReadyRec>, later: seq<ReadyRec>)
    requires forall r :: r in later ==> judge(r).None? || Names(FirstTellings(judge, tidOf, rd), tidOf, r.tid)
    ensures FirstTellings(judge, tidOf, rd + later) == FirstTellings(judge, tidOf, rd)
  {
    if later == [] {
      assert rd + later == rd;
    } else {
      var init := later[..|later| - 1];
      assert later == init + [later[|later| - 1]];
      assert (rd + later)[..|rd + later| - 1] == rd + init;
      NothingNew(judge, tidOf, rd, init);
    }
  }

  lemma {:induction false} TellingsGrow<J(!new)>(judge: ReadyRec -> Option<J>, tidOf: J -> nat, rd: seq<ReadyRec>, k: nat)
    requires k <= |rd|
    ensures forall x :: x in FirstTellings(judge, tidOf, rd[..k]) ==> x in FirstTellings(judge, tidOf, rd)
    decreases |rd|
  {
    if k < |rd| {
      var init := rd[..|rd| - 1];
      assert init[..k] == rd[..k];
      TellingsGrow(judge, tidOf, init, k);
    } else {
      assert rd[..k] == rd;
    }
  }

  /** A telling wake-up of a thread not named before it is told of. */
  lemma TellsIt<J(!new)>(judge: ReadyRec -> Option<J>, tidOf: J -> nat, rd: seq<ReadyRec>, i: nat)
    requires i < |rd|
    ensures judge(rd[i]).Some? && !Names(FirstTellings(judge, tidOf, rd[..i]), tidOf, rd[i].tid) ==>
      judge(rd[i]).value in FirstTellings(judge, tidOf, rd)
  {
    assert rd[..i + 1][..i] == rd[..i];
    TellingsGrow(judge, tidOf, rd, i + 1);
  }

  lemma NamesMember<J(!new)>(out: seq<J>, tidOf: J -> nat, tid: nat)
    ensures Names(out, tidOf, tid) <==> exists x :: x in out && tidOf(x) == tid
  {
    if x :| x in out && tidOf(x) == tid {
      NamedBy(out, tidOf, x);
    }
  }

  /** Sorting changes neither what is told nor who is named. */
  lemma SortedNames(slow: IoRec, stuck: seq<Stuck>, sw: seq<SwitchRec>, rd: seq<ReadyRec>, tid: nat)
    ensures var (told, out) := (FirstTellings(JudgedLock(slow, stuck, sw), ChainTid, rd), LockChainsOf(slow, stuck, sw, rd));
      (forall c :: c in out <==> c in told) && (Names(out, ChainTid, tid) <==> Names(told, ChainTid, tid))
  {
    var (told, out) := (FirstTellings(JudgedLock(slow, stuck, sw), ChainTid, rd), LockChainsOf(slow, stuck, sw, rd));
    SortByMeaning(told, ChainKey);
    NamesMember(out, ChainTid, tid);
    NamesMember(told, ChainTid, tid);
  }

  // ---- The stuck threads ------------------------------------------------------------------------

  lemma StuckFacts(slow: IoRec, others: seq<IoRec>, sw: seq<SwitchRec>, rd: seq<ReadyRec>, s: Stuck)
    requires s in StuckBehindOf(slow, others, sw, rd)
    ensures s.tid != IDLE_TID && FindStuck(StuckBehindOf(slow, others, sw, rd), s.tid) == Some(s)
  {
    var judge, stuck := Judged(slow, others, sw), StuckBehindOf(slow, others, sw, rd);
    StuckBehindMeaning(slow, others, sw, rd);
    var j: nat :| Says(judge, rd, j, s);
    FindStuckFacts(stuck, s.tid);
    Finds(stuck, s);
    var found := FindStuck(stuck, s.tid).value;
    assert Told(judge, rd, found);
    var k: nat :| Says(judge, rd, k, found);
    assert rd[j].tid == s.tid && rd[k].tid == s.tid;
  }

  lemma {:induction false} Finds(stuck: seq<Stuck>, s: Stuck)
    requires s in stuck
    ensures FindStuck(stuck, s.tid).Some? && FindStuck(stuck, s.tid).value.tid == s.tid
  {
    if stuck[0].tid != s.tid {
      Finds(stuck[1..], s);
    }
  }

  // ---- What switches on the last tick can do ----------------------------------------------------

  /** Switches no earlier than the last tick leave every judgement as it is, but for taking back one
      of a wake-up on that tick. */
  lemma LastTickJudgement(slow: IoRec, stuck: seq<Stuck>, sw: seq<SwitchRec>, later: seq<SwitchRec>, r: ReadyRec)
    requires WokenInRange(slow, stuck) && r.ts <= LastTick(slow)
    requires forall s :: s in later ==> LastTick(slow) <= s.ts
    ensures JudgeLock(slow, stuck, sw + later, r) == JudgeLock(slow, stuck, sw, r)
      || (r.ts == LastTick(slow) && JudgeLock(slow, stuck, sw + later, r).None?)
  {
    LookAfterReaches();
    LastFacts(later, OffBy(r.tid, r.ts));
    LastConcat(sw, later, OffBy(r.tid, r.ts));
    if r.Waker().Some? {
      FindStuckFacts(stuck, r.Waker().value);
    }
  }

  /** A later wake-up that tells does so on the last tick, of a thread locked out already. */
  lemma LaterTelling(slow: IoRec, stuck: seq<Stuck>, sw: seq<SwitchRec>, later: seq<SwitchRec>, r: ReadyRec)
      returns (holder: Stuck)
    requires WokenInRange(slow, stuck) && LastTick(slow) <= r.ts && JudgeLock(slow, stuck, sw + later, r).Some?
    requires forall s :: s in later ==> LastTick(slow) <= s.ts
    ensures r.ts == LastTick(slow) && holder in stuck && holder.wokeAt + LOCK_AFTER >= LastTick(slow)
    ensures LockedOut(sw, slow, holder, r.tid) && !Names(stuck, StuckTid, r.tid)
  {
    LookAfterReaches();
    FindStuckFacts(stuck, r.Waker().value);
    holder := FindStuck(stuck, r.Waker().value).value;
    LastFacts(later, OffBy(r.tid, r.ts));
    LastConcat(sw, later, OffBy(r.tid, r.ts));
  }

  /** The rings show the same lock waits as the whole trace. */
  lemma SameLockedOut(ring: seq<SwitchRec>, sw: seq<SwitchRec>, slow: IoRec, holder: Stuck, tid: nat)
    requires TimeOrdered(ring, SwitchTs) && TimeOrdered(sw, SwitchTs)
    requires Filter(ring, From(SwitchTs, slow.end - slow.dur)) == Filter(sw, From(SwitchTs, slow.end - slow.dur))
    ensures LockedOut(ring, slow, holder, tid) <==> LockedOut(sw, slow, holder, tid)
  {
    var start, at := slow.end - slow.dur, LastTick(slow);
    FilterFrom(ring, sw, SwitchTs, start, OffIn({tid}, start, at));
    NewestOffRestricted(ring, {tid}, start, at, tid, at);
    NewestOffRestricted(sw, {tid}, start, at, tid, at);
  }

  // ---- Both directions --------------------------------------------------------------------------

  /** What the two directions share: the stuck threads, and the chains told of by everything so far. */
  ghost predicate Standing(st: State, slow: IoRec, sw: seq<SwitchRec>, rd: seq<ReadyRec>)
    requires Recs(st, slow).Some?
  {
    && WokenInRange(slow, StuckOnCopy(st, slow))
    && (forall r :: r in rd ==> r.ts <= LastTick(slow))
    && ChainsOnCopy(st, slow) == LockChainsOf(slow, StuckOnCopy(st, slow), sw, rd)
    && (forall holder: Stuck, tid: nat :: LockedOut(st.switches, slow, holder, tid) <==> LockedOut(sw, slow, holder, tid))
  }

  lemma {:induction false} RunStanding(run: seq<Step>, switchCap: nat, readyCap: nat, slow: IoRec)
    requires InOrder(run) && LongKept(run) && Recs(Replay(run, switchCap, readyCap), slow).Some?
    requires Newest(run) == LastTick(slow)
    ensures Standing(Replay(run, switchCap, readyCap), slow, Switches(run), Readies(run))
  {
    var st, recs := Replay(run, switchCap, readyCap), Recs(Replay(run, switchCap, readyCap), slow).value;
    AllWokenInRange(slow, Near(st, slow), recs.0, recs.1);
    RunOrdered(run, switchCap, readyCap);
    RingsOrdered(run, switchCap, readyCap);
    RunIsWhole(run, switchCap, readyCap, slow);
    LockAnswerFrom(st, slow, run, []);
    assert run + [] == run;
    forall holder: Stuck, tid: nat ensures LockedOut(st.switches, slow, holder, tid) <==> LockedOut(Switches(run), slow, holder, tid) {
      SameLockedOut(st.switches, Switches(run), slow, holder, tid);
    }
    forall r | r in Readies(run) ensures r.ts <= LastTick(slow) {
      assert ReadyTs(r) <= Newest(run);
    }
  }

  /** With nothing open, nothing stamped with the last tick or later changes the chains. */
  lemma ClosedStays(st: State, slow: IoRec, sw: seq<SwitchRec>, rd: seq<ReadyRec>, laterSw: seq<SwitchRec>, laterRd: seq<ReadyRec>)
    requires Recs(st, slow).Some? && Standing(st, slow, sw, rd) && !StillOpen(st, slow)
    requires forall s :: s in laterSw ==> LastTick(slow) <= s.ts
    requires forall r :: r in laterRd ==> LastTick(slow) <= r.ts
    ensures LockChainsOf(slow, StuckOnCopy(st, slow), sw + laterSw, rd + laterRd) == ChainsOnCopy(st, slow)
  {
    var stuck := StuckOnCopy(st, slow);
    var judge, judge' := JudgedLock(slow, stuck, sw), JudgedLock(slow, stuck, sw + laterSw);
    forall i: nat | i < |rd| ensures SameOrNamed(judge, judge', ChainTid, rd, i) {
      assert rd[i] in rd;
      LastTickJudgement(slow, stuck, sw, laterSw, rd[i]);
      TellsIt(judge, ChainTid, rd, i);
      SortedNames(slow, stuck, sw, rd, 0);
    }
    SameFirst(judge, judge', ChainTid, rd);
    forall r | r in laterRd ensures judge'(r).None? || Names(FirstTellings(judge', ChainTid, rd), ChainTid, r.tid) {
      if judge'(r).Some? {
        var holder := LaterTelling(slow, stuck, sw, laterSw, r);
        assert LockedOut(st.switches, slow, holder, r.tid);
        assert !CouldStillTell(st, slow, holder, r.tid);
        SortedNames(slow, stuck, sw, rd, r.tid);
      }
    }
    NothingNew(judge', ChainTid, rd, laterRd);
  }

  lemma NotSaid(slow: IoRec, stuck: seq<Stuck>, sw: seq<SwitchRec>, s: SwitchRec, c: LockChain, r: ReadyRec)
    requires WokenInRange(slow, stuck) && c.wokeAt == LastTick(slow) == s.ts && s.oldTid == c.waiter
    ensures JudgeLock(slow, stuck, sw + [s], r) != Some(c)
  {
    LookAfterReaches();
    assert (sw + [s])[..|sw|] == sw;
    if r.Waker().Some? {
      FindStuckFacts(stuck, r.Waker().value);
    }
  }

  /** A switch-off on the last tick takes back a chain told of on it. */
  lemma TakenBack(st: State, slow: IoRec, sw: seq<SwitchRec>, rd: seq<ReadyRec>, c: LockChain, s: SwitchRec)
    requires Recs(st, slow).Some? && Standing(st, slow, sw, rd)
    requires c.wokeAt == LastTick(slow) == s.ts && s.oldTid == c.waiter
    ensures c !in LockChainsOf(slow, StuckOnCopy(st, slow), sw + [s], rd)
  {
    var stuck := StuckOnCopy(st, slow);
    var judge := JudgedLock(slow, stuck, sw + [s]);
    LockChainsMeaning(slow, stuck, sw + [s], rd);
    forall j: nat ensures !Says(judge, rd, j, c) {
      if j < |rd| {
        NotSaid(slow, stuck, sw, s, c, rd[j]);
      }
    }
    assert !Told(judge, rd, c);
  }

  /** A wake-up on the last tick adds a chain of a thread that could still be told of. */
  lemma ToldLate(st: State, slow: IoRec, sw: seq<SwitchRec>, rd: seq<ReadyRec>, holder: Stuck, tid: nat)
    requires Recs(st, slow).Some? && Standing(st, slow, sw, rd) && CouldStillTell(st, slow, holder, tid)
    ensures LockChainsOf(slow, StuckOnCopy(st, slow), sw, rd + [ReadyRec(LastTick(slow), tid, holder.tid, 0)]) != ChainsOnCopy(st, slow)
  {
    var stuck, r, recs := StuckOnCopy(st, slow), ReadyRec(LastTick(slow), tid, holder.tid, 0), Recs(st, slow).value;
    var judge, told := JudgedLock(slow, stuck, sw), FirstTellings(JudgedLock(slow, stuck, sw), ChainTid, rd);
    StuckFacts(slow, Near(st, slow), recs.0, recs.1, holder);
    NamedBy(stuck, StuckTid, holder);
    LookAfterReaches();
    assert LockedOut(sw, slow, holder, tid);
    var c := LockChain(tid, holder.tid, r.ts - WaitBefore(sw, tid, r.ts).value.ts, r.ts);
    assert judge(r) == Some(c);
    SortedNames(slow, stuck, sw, rd, tid);
    assert (rd + [r])[..|rd|] == rd;
    SortedNames(slow, stuck, sw, rd + [r], tid);
    NamedBy(told + [c], ChainTid, c);
    assert Names(LockChainsOf(slow, stuck, sw, rd + [r]), ChainTid, tid);
  }

  /** The lock chains can no longer change exactly when the trace has gone past the last tick of the
      look-ahead, or nothing is open in what the rings hold: no chain was told of on that tick, and no
      stuck thread woken late enough has, among the threads not reported yet, one locked out. The
      newest time is the newest stamp delivered (`src/state.rs:359`). */
  lemma ChainsFinalExactly(run: seq<Step>, switchCap: nat, readyCap: nat, slow: IoRec)
    requires InOrder(run) && LongKept(run) && Recs(Replay(run, switchCap, readyCap), slow).Some?
    requires Replay(run, switchCap, readyCap).latest == Newest(run)
    ensures var st := Replay(run, switchCap, readyCap);
      ChainsFinal(run, st, slow) <==> st.latest > LastTick(slow) || !StillOpen(st, slow)
  {
    var st := Replay(run, switchCap, readyCap);
    RunIsWhole(run, switchCap, readyCap, slow);
    if st.latest > LastTick(slow) || !StillOpen(st, slow) {
      forall more: seq<Step> ensures Unchanged(run, more, st, slow) {
        if InOrder(run + more) {
          StaysFinal(run, more, switchCap, readyCap, slow);
        }
      }
    } else {
      RunStanding(run, switchCap, readyCap, slow);
      var more := Undoing(run, st, slow);
      assert !Unchanged(run, more, st, slow);
    }
  }

  lemma StaysFinal(run: seq<Step>, more: seq<Step>, switchCap: nat, readyCap: nat, slow: IoRec)
    requires InOrder(run + more) && LongKept(run) && Recs(Replay(run, switchCap, readyCap), slow).Some?
    requires var st := Replay(run, switchCap, readyCap);
      st.latest == Newest(run) && (st.latest > LastTick(slow) || !StillOpen(st, slow))
    ensures Unchanged(run, more, Replay(run, switchCap, readyCap), slow)
  {
    var st := Replay(run, switchCap, readyCap);
    OrderAfter(run, more);
    RunIsWhole(run, switchCap, readyCap, slow);
    if st.latest > LastTick(slow) {
      LockAnswerFrom(st, slow, run, more);
    } else {
      RunStanding(run, switchCap, readyCap, slow);
      Deliveries(run, more, LastTick(slow));
      ClosedStays(st, slow, Switches(run), Readies(run), Switches(more), Readies(more));
    }
  }

  /** One step on the last tick that changes the chains, when something is open. */
  lemma Undoing(run: seq<Step>, st: State, slow: IoRec) returns (more: seq<Step>)
    requires InOrder(run) && Newest(run) == LastTick(slow) && Recs(st, slow).Some?
    requires Standing(st, slow, Switches(run), Readies(run)) && StillOpen(st, slow)
    ensures !Unchanged(run, more, st, slow)
  {
    if ToldAtTheLast(st, slow) {
      var c :| c in ChainsOnCopy(st, slow) && c.wokeAt == LastTick(slow);
      var s := SwitchRec(LastTick(slow), 0, 0, 0, c.waiter, STATE_WAITING, 0);
      more := [Switch(s)];
      TakenBack(st, slow, Switches(run), Readies(run), c, s);
    } else {
      var holder: Stuck, tid: nat :| CouldStillTell(st, slow, holder, tid);
      more := [Ready(ReadyRec(LastTick(slow), tid, holder.tid, 0))];
      ToldLate(st, slow, Switches(run), Readies(run), holder, tid);
    }
    StepRecorded(run, more[0], 0, 0);
    assert (run + more)[..|run|] == run;
  }

  // ---- Both happen ------------------------------------------------------------------------------

  /** Where rounding leaves the look-ahead a tick longer than the two delays it is made of, no change
      can come at all. */
  lemma RoundedUpIsFinal(run: seq<Step>, switchCap: nat, readyCap: nat, slow: IoRec)
    requires InOrder(run) && LongKept(run) && Recs(Replay(run, switchCap, readyCap), slow).Some?
    requires Replay(run, switchCap, readyCap).latest == Newest(run)
    requires LOOK_AFTER > READY_AFTER + LOCK_AFTER
    ensures ChainsFinal(run, Replay(run, switchCap, readyCap), slow)
  {
    var st := Replay(run, switchCap, readyCap);
    var recs, stuck := Recs(st, slow).value, StuckOnCopy(st, slow);
    AllWokenInRange(slow, Near(st, slow), recs.0, recs.1);
    LockChainsMeaning(slow, stuck, recs.0, recs.1);
    forall c | c in ChainsOnCopy(st, slow) ensures c.wokeAt < LastTick(slow) {
      var j: nat :| Says(JudgedLock(slow, stuck, recs.0), recs.1, j, c);
      FindStuckFacts(stuck, recs.1[j].Waker().value);
    }
    ChainsFinalExactly(run, switchCap, readyCap, slow);
  }

  /** 71 ms: how far past a completion the event log waits for the trace, unless it gives up or the run
      ends. */
  const EXAMINE_AFTER: nat := FREQ * 71 / 1000

  /** A request the log did wait for is past all that: its chains are final. */
  lemma WaitedForIsFinal(run: seq<Step>, switchCap: nat, readyCap: nat, slow: IoRec)
    requires InOrder(run) && LongKept(run) && Recs(Replay(run, switchCap, readyCap), slow).Some?
    requires Replay(run, switchCap, readyCap).latest == Newest(run)
    requires Replay(run, switchCap, readyCap).latest >= slow.end + EXAMINE_AFTER
    ensures ChainsFinal(run, Replay(run, switchCap, readyCap), slow)
  {
    ChainsFinalExactly(run, switchCap, readyCap, slow);
  }

  /** A request; a switch-off into a wait for it, and one into a wait on a lock, both as it begins; the
      first thread woken as late as still counts, by no thread in particular; and the wake-up of the
      second by the first that could still come, on the last tick of the look-ahead. */
  function SomeRequest(): IoRec { IoRec(STUCK_MIN, STUCK_MIN, 1, 0, 9) }
  function IntoDiskWait(): SwitchRec { SwitchRec(0, 0, 3, 8, 1, STATE_WAITING, 0) }
  function IntoLockWait(): SwitchRec { SwitchRec(0, 1, 3, 8, 2, STATE_WAITING, 21) }
  function WakeUp(): ReadyRec { ReadyRec(STUCK_MIN + READY_AFTER, 1, 0, 0) }
  function LateWakeUp(): ReadyRec { ReadyRec(LastTick(SomeRequest()), 2, 1, 0) }
  function Holder(): Stuck { Stuck(1, STUCK_MIN + READY_AFTER, 0, STUCK_MIN + READY_AFTER) }

  function OpenRun(): seq<Step> {
    [Switch(IntoDiskWait()), Switch(IntoLockWait()), Ready(WakeUp()), Caught(LastTick(SomeRequest()))]
  }

  function OpenState(): State {
    State(LastTick(SomeRequest()), 0, [IntoDiskWait(), IntoLockWait()], [WakeUp()], [], 2, 1, false, None, 0, 0)
  }

  lemma RunOne(run: seq<Step>, step: Step, all: seq<Step>)
    requires all == run + [step]
    requires InOrder(run) && LongKept(run) && !step.Pruned?
    requires step.Stamp().Some? && Newest(run) <= step.Stamp().value
    ensures Replay(all, 0, 0) == Apply(Replay(run, 0, 0), step)
    ensures InOrder(all) && LongKept(all) && Newest(all) == step.Stamp().value
  {
    StepRecorded(run, step, 0, 0);
  }

  lemma OpenReplay()
    ensures InOrder(OpenRun()) && LongKept(OpenRun()) && Newest(OpenRun()) == LastTick(SomeRequest())
    ensures Replay(OpenRun(), 0, 0) == OpenState()
  {
    LookAfterReaches();
    var a, b, c, e := Switch(IntoDiskWait()), Switch(IntoLockWait()), Ready(WakeUp()), Caught(LastTick(SomeRequest()));
    RunOne([], a, [a]);
    RunOne([a], b, [a, b]);
    RunOne([a, b], c, [a, b, c]);
    RunOne([a, b, c], e, [a, b, c, e]);
  }

  lemma SortOne<T(!new)>(x: T, key: T -> Key)
    ensures SortBy([x], key) == [x]
  {
    assert [x][..0] == [];
  }

  lemma OneTid(r: ReadyRec)
    ensures Tids([r]) == {r.tid}
  {
    assert r in [r];
  }

  lemma FilterFirst(a: SwitchRec, b: SwitchRec, p: SwitchRec -> bool)
    requires p(a) && !p(b)
    ensures Filter([a, b], p) == [a]
  {
    assert [a, b] == [a] + [b];
    OnlyOne(a, p);
    FilterSnoc([a], b, p);
  }

  lemma KeptWithin(r: ReadyRec, from: int, to: int)
    requires from <= r.ts <= to
    ensures Filter([r], Within(ReadyTs, from, to)) == [r]
  {
    assert ReadyTs(r) == r.ts;
    OnlyOne(r, Within(ReadyTs, from, to));
  }

  lemma WakeUpNear()
    ensures Filter([WakeUp()], Within(ReadyTs, SomeRequest().end - READY_BEFORE, LastTick(SomeRequest()))) == [WakeUp()]
  {
    LookAfterReaches();
    KeptWithin(WakeUp(), SomeRequest().end - READY_BEFORE, LastTick(SomeRequest()));
  }

  lemma OneOff(to: int)
    requires to >= 0
    ensures Filter([IntoDiskWait(), IntoLockWait()], OffIn({1}, 0, to)) == [IntoDiskWait()]
  {
    FilterFirst(IntoDiskWait(), IntoLockWait(), OffIn({1}, 0, to));
  }

  lemma RecsAre(st: State, slow: IoRec, sw: seq<SwitchRec>, rd: seq<ReadyRec>)
    requires Covers(st, slow.end - slow.dur) && st.latest >= LastTick(slow)
    requires Filter(st.readies, Within(ReadyTs, slow.end - READY_BEFORE, LastTick(slow))) == rd
    requires Filter(st.switches, OffIn(Tids(rd), slow.end - slow.dur, LastTick(slow))) == sw
    ensures Recs(st, slow) == Some((sw, rd))
  {}

  lemma OpenCovers()
    ensures Covers(OpenState(), SomeRequest().end - SomeRequest().dur) && OpenState().latest == LastTick(SomeRequest())
  {}

  lemma OpenSwitches()
    ensures var tids := Tids([WakeUp()]);
      Filter(OpenState().switches, OffIn(tids, SomeRequest().end - SomeRequest().dur, LastTick(SomeRequest()))) == [IntoDiskWait()]
  {
    OneTid(WakeUp());
    OneOff(LastTick(SomeRequest()));
  }

  lemma {:induction false} OpenRecs()
    ensures Recs(OpenState(), SomeRequest()) == Some(([IntoDiskWait()], [WakeUp()]))
  {
    OpenCovers();
    WakeUpNear();
    OpenSwitches();
    RecsAre(OpenState(), SomeRequest(), [IntoDiskWait()], [WakeUp()]);
  }

  lemma OpenStuck()
    ensures StuckBehindOf(SomeRequest(), [], [IntoDiskWait()], [WakeUp()]) == [Holder()]
    ensures LockChainsOf(SomeRequest(), [Holder()], [IntoDiskWait()], [WakeUp()]) == []
  {
    var judge := Judged(SomeRequest(), [], [IntoDiskWait()]);
    OnlyOne(IntoDiskWait(), OffBy(1, WakeUp().ts));
    assert judge(WakeUp()) == Some(Holder());
    assert [WakeUp()][..0] == [];
    assert FirstTellings(judge, StuckTid, [WakeUp()]) == [Holder()];
    SortOne(Holder(), StuckKey);
  }

  lemma OneChainMore()
    requires LOOK_AFTER == READY_AFTER + LOCK_AFTER
    ensures WaitBefore(OpenState().switches, 2, LastTick(SomeRequest())) == Some(IntoLockWait())
    ensures LockChainsOf(SomeRequest(), [Holder()], OpenState().switches, [WakeUp(), LateWakeUp()])
      == [LockChain(2, 1, LastTick(SomeRequest()), LastTick(SomeRequest()))]
  {
    var judge, c := JudgedLock(SomeRequest(), [Holder()], OpenState().switches), LockChain(2, 1, LateWakeUp().ts, LateWakeUp().ts);
    assert judge(WakeUp()).None? && judge(LateWakeUp()) == Some(c);
    assert [WakeUp()][..0] == [] && [WakeUp(), LateWakeUp()][..1] == [WakeUp()];
    assert FirstTellings(judge, ChainTid, [WakeUp()]) == [];
    assert FirstTellings(judge, ChainTid, [WakeUp(), LateWakeUp()]) == [c];
    SortOne(c, ChainKey);
  }

  /** Four steps after which a wake-up on the last tick still changes the answer, from no chain to
      one: the chains are not final. */
  lemma OpenIsNotFinal()
    requires LOOK_AFTER == READY_AFTER + LOCK_AFTER
    ensures var st := Replay(OpenRun(), 0, 0);
      && InOrder(OpenRun()) && LongKept(OpenRun()) && st.latest == Newest(OpenRun())
      && Recs(st, SomeRequest()).Some? && ChainsOnCopy(st, SomeRequest()) == []
      && LockChainsOf(SomeRequest(), StuckOnCopy(st, SomeRequest()), st.switches, st.readies + [LateWakeUp()])
           == [LockChain(2, 1, LastTick(SomeRequest()), LastTick(SomeRequest()))]
      && !ChainsFinal(OpenRun(), st, SomeRequest())
  {
    OpenReplay();
    OpenRecs();
    OpenStuck();
    OneChainMore();
    assert Near(OpenState(), SomeRequest()) == [];
    assert [WakeUp()] + [LateWakeUp()] == [WakeUp(), LateWakeUp()];
    OpenCouldTell();
    ChainsFinalExactly(OpenRun(), 0, 0, SomeRequest());
  }

  lemma OpenCouldTell()
    requires LOOK_AFTER == READY_AFTER + LOCK_AFTER
    ensures Recs(OpenState(), SomeRequest()).Some? && CouldStillTell(OpenState(), SomeRequest(), Holder(), 2)
  {
    OpenRecs();
    OpenStuck();
    OneChainMore();
    assert Near(OpenState(), SomeRequest()) == [];
    assert StuckOnCopy(OpenState(), SomeRequest()) == [Holder()];
  }
}
