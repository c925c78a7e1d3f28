/** The stacks copied out for one slow request, against all that are kept. */
module StackCopies {
  import opened Trace
  import opened Seqs
  import opened Stacks
  import opened DiskStuck
  import opened WaitStacks
  import Evidence
  import Rings

  /** 71 ms: how far past the completion stacks are copied. */
  const COPY_AFTER: nat := FREQ * 71 / 1000

  /** That reaches past the last fault a reported wait can be explained by. */
  lemma CopyReaches()
    ensures COPY_AFTER >= LOOK_AFTER && COPY_AFTER >= READY_AFTER + LOCK_AFTER + FAULT_LATE && STUCK_MIN >= SLACK
  {}

  function InOf(tids: set<nat>, from: int, to: int): SwitchInStack -> bool {
    (s: SwitchInStack) => from <= s.ts <= to && s.tid in tids
  }

  function FaultOf(tids: set<nat>, from: int, to: int): FaultStack -> bool {
    (f: FaultStack) => from <= f.end <= to && f.tid in tids
  }

  /** Those of the threads woken around a completion, from the request's start on. */
  function CopiedIns(ins: seq<SwitchInStack>, slow: IoRec, rd: seq<ReadyRec>): seq<SwitchInStack> {
    Filter(ins, InOf(Rings.Tids(rd), slow.end - slow.dur, slow.end + COPY_AFTER))
  }

  function CopiedFaults(faults: seq<FaultStack>, slow: IoRec, rd: seq<ReadyRec>): seq<FaultStack> {
    Filter(faults, FaultOf(Rings.Tids(rd), slow.end - slow.dur, slow.end + COPY_AFTER))
  }

  /** The first match is found in a selection exactly when it is selected. */
  lemma {:induction false} FirstSelected(ins: seq<SwitchInStack>, keep: SwitchInStack -> bool, tid: nat, offTs: int, wokeAt: int)
    ensures FirstSwitchIn(ins, tid, offTs, wokeAt).None? ==> FirstSwitchIn(Filter(ins, keep), tid, offTs, wokeAt).None?
    ensures FirstSwitchIn(ins, tid, offTs, wokeAt).Some? && keep(FirstSwitchIn(ins, tid, offTs, wokeAt).value) ==>
      FirstSwitchIn(Filter(ins, keep), tid, offTs, wokeAt) == FirstSwitchIn(ins, tid, offTs, wokeAt)
  {
    if ins != [] {
      FirstSelected(ins[1..], keep, tid, offTs, wokeAt);
      OnlyOne(ins[0], keep);
      FilterConcat([ins[0]], ins[1..], keep);
      assert ins == [ins[0]] + ins[1..];
      var rest := Filter(ins[1..], keep);
      assert keep(ins[0]) ==> Filter(ins, keep)[0] == ins[0] && Filter(ins, keep)[1..] == rest;
      assert !keep(ins[0]) ==> Filter(ins, keep) == rest;
    }
  }

  lemma FirstSelectedExactly(ins: seq<SwitchInStack>, keep: SwitchInStack -> bool, tid: nat, offTs: int, wokeAt: int)
    ensures FirstSwitchIn(Filter(ins, keep), tid, offTs, wokeAt) == FirstSwitchIn(ins, tid, offTs, wokeAt)
      <==> (FirstSwitchIn(ins, tid, offTs, wokeAt).Some? ==> keep(FirstSwitchIn(ins, tid, offTs, wokeAt).value))
  {
    FirstSelected(ins, keep, tid, offTs, wokeAt);
    FirstSwitchInFacts(Filter(ins, keep), tid, offTs, wokeAt);
    FilterMembers(ins, keep);
  }

  /** A selection with every spanning fault in it has the closest. */
  lemma {:induction false} ClosestSelected(faults: seq<FaultStack>, keep: FaultStack -> bool, tid: nat, offTs: int, wokeAt: int)
    requires forall f :: f in faults && Spans(f, tid, offTs, wokeAt) ==> keep(f)
    ensures ClosestFault(Filter(faults, keep), tid, offTs, wokeAt) == ClosestFault(faults, tid, offTs, wokeAt)
  {
    if faults != [] {
      var init, last := faults[..|faults| - 1], faults[|faults| - 1];
      assert faults == init + [last];
      ClosestSelected(init, keep, tid, offTs, wokeAt);
      FilterSnoc(init, last, keep);
      assert (Filter(init, keep) + [last])[..|Filter(init, keep)|] == Filter(init, keep);
    }
  }

  /** What is found on the copy is what is found on everything kept, unless the switch-in came too late
      for the copy. */
  ghost predicate CopyTells(ins: seq<SwitchInStack>, faults: seq<FaultStack>, slow: IoRec, rd: seq<ReadyRec>,
                            tid: nat, offTs: int, wokeAt: int)
  {
    var (few, first) := (CopiedIns(ins, slow, rd), FirstSwitchIn(ins, tid, offTs, wokeAt));
    && ClosestFault(CopiedFaults(faults, slow, rd), tid, offTs, wokeAt) == ClosestFault(faults, tid, offTs, wokeAt)
    && (FirstSwitchIn(few, tid, offTs, wokeAt) == first <==> (first.Some? ==> first.value.ts <= slow.end + COPY_AFTER))
    && ((first.Some? ==> first.value.ts <= slow.end + COPY_AFTER) ==>
          WaitStack(tid, offTs, wokeAt, few, CopiedFaults(faults, slow, rd)) == WaitStack(tid, offTs, wokeAt, ins, faults))
  }

  lemma CopyLookup(ins: seq<SwitchInStack>, faults: seq<FaultStack>, slow: IoRec, rd: seq<ReadyRec>,
                   tid: nat, offTs: int, wokeAt: int)
    requires tid in Rings.Tids(rd) && slow.end - slow.dur <= wokeAt - SLACK && wokeAt + FAULT_LATE <= slow.end + COPY_AFTER
    ensures CopyTells(ins, faults, slow, rd, tid, offTs, wokeAt)
  {
    var tids, from, to := Rings.Tids(rd), slow.end - slow.dur, slow.end + COPY_AFTER;
    FirstSelectedExactly(ins, InOf(tids, from, to), tid, offTs, wokeAt);
    FirstSwitchInFacts(ins, tid, offTs, wokeAt);
    ClosestSelected(faults, FaultOf(tids, from, to), tid, offTs, wokeAt);
  }

  /** For every thread found stuck the copied faults lose nothing, and the copied switch-ins exactly
      those that came too late. */
  lemma StuckCopyTells(ins: seq<SwitchInStack>, faults: seq<FaultStack>, slow: IoRec, others: seq<IoRec>,
                       sw: seq<SwitchRec>, rd: seq<ReadyRec>, s: Stuck)
    requires s in StuckBehindOf(slow, others, sw, rd)
    ensures CopyTells(ins, faults, slow, rd, s.tid, s.wokeAt - s.waited, s.wokeAt)
  {
    StuckBehindMeaning(slow, others, sw, rd);
    var j: nat :| Says(Judged(slow, others, sw), rd, j, s);
    assert rd[j] in rd;
    CopyReaches();
    CopyLookup(ins, faults, slow, rd, s.tid, s.wokeAt - s.waited, s.wokeAt);
  }

  /** So for every thread that waited on a lock behind them. */
  lemma ChainCopyTells(ins: seq<SwitchInStack>, faults: seq<FaultStack>, slow: IoRec, others: seq<IoRec>,
                       sw: seq<SwitchRec>, rd: seq<ReadyRec>, c: LockChain)
    requires c in LockChainsOf(slow, StuckBehindOf(slow, others, sw, rd), sw, rd)
    ensures CopyTells(ins, faults, slow, rd, c.waiter, c.wokeAt - c.waited, c.wokeAt)
  {
    var stuck := StuckBehindOf(slow, others, sw, rd);
    LockChainsMeaning(slow, stuck, sw, rd);
    var j: nat :| Says(JudgedLock(slow, stuck, sw), rd, j, c);
    assert rd[j] in rd;
    Evidence.AllWokenInRange(slow, others, sw, rd);
    Evidence.FindStuckFacts(stuck, rd[j].Waker().value);
    CopyReaches();
    CopyLookup(ins, faults, slow, rd, c.waiter, c.wokeAt - c.waited, c.wokeAt);
  }
}
