/** Finding the stack for a wait a slow request ended, and whose stack and which wait it is. */
module WaitStacks {
  import opened Trace
  import opened Seqs
  import opened Stacks
  import opened StackWaits
  import opened StackOwners
  import opened DiskStuck

  // ---- The lookup -------------------------------------------------------------------------------

  const SLACK: nat := MS
  /** 50 ms. */
  const FAULT_LATE: nat := FREQ / 20

  datatype Source = BySwitchIn | ByFault

  /** The first switch-in kept for exactly the wait that began at `offTs`, after the wake-up. */
  function FirstSwitchIn(ins: seq<SwitchInStack>, tid: nat, offTs: int, wokeAt: int): Option<SwitchInStack> {
    if ins == [] then None
    else if ins[0].tid == tid && ins[0].since == offTs && ins[0].ts >= wokeAt then Some(ins[0])
    else FirstSwitchIn(ins[1..], tid, offTs, wokeAt)
  }

  predicate Spans(f: FaultStack, tid: nat, offTs: int, wokeAt: int) {
    f.tid == tid && f.start <= offTs + SLACK && wokeAt - SLACK <= f.end <= wokeAt + FAULT_LATE
  }

  /** The spanning fault that completed closest to the wake-up, the first of equals. */
  function ClosestFault(faults: seq<FaultStack>, tid: nat, offTs: int, wokeAt: int): Option<FaultStack> {
    if faults == [] then None
    else
      var best, f := ClosestFault(faults[..|faults| - 1], tid, offTs, wokeAt), faults[|faults| - 1];
      if Spans(f, tid, offTs, wokeAt) && (best.None? || Abs(f.end - wokeAt) < Abs(best.value.end - wokeAt)) then Some(f) else best
  }

  function WaitStack(tid: nat, offTs: int, wokeAt: int, ins: seq<SwitchInStack>, faults: seq<FaultStack>)
    : Option<(Stack, Source)> {
    var s, f := FirstSwitchIn(ins, tid, offTs, wokeAt), ClosestFault(faults, tid, offTs, wokeAt);
    if s.Some? then Some((s.value.stack, BySwitchIn))
    else if f.Some? then Some((f.value.stack, ByFault))
    else None
  }

  lemma {:induction false} ClosestFaultMeaning(faults: seq<FaultStack>, tid: nat, offTs: int, wokeAt: int)
    ensures var best := ClosestFault(faults, tid, offTs, wokeAt);
      && (best.Some? ==> best.value in faults && Spans(best.value, tid, offTs, wokeAt))
      && (forall f :: f in faults && Spans(f, tid, offTs, wokeAt) ==> best.Some? && Abs(best.value.end - wokeAt) <= Abs(f.end - wokeAt))
  {
    if faults != [] {
      ClosestFaultMeaning(faults[..|faults| - 1], tid, offTs, wokeAt);
      assert faults == faults[..|faults| - 1] + [faults[|faults| - 1]];
    }
  }

  /** Fault `k` spans the wait; none that does completed closer to the wake-up, and none earlier in the
      list as close. */
  ghost predicate ClosestAt(faults: seq<FaultStack>, tid: nat, offTs: int, wokeAt: int, k: nat) {
    && k < |faults| && Spans(faults[k], tid, offTs, wokeAt)
    && (forall i :: 0 <= i < |faults| && Spans(faults[i], tid, offTs, wokeAt) ==> Abs(faults[k].end - wokeAt) <= Abs(faults[i].end - wokeAt))
    && (forall i :: 0 <= i < k && Spans(faults[i], tid, offTs, wokeAt) ==> Abs(faults[k].end - wokeAt) < Abs(faults[i].end - wokeAt))
  }

  ghost predicate ClosestSpans(faults: seq<FaultStack>, tid: nat, offTs: int, wokeAt: int, f: FaultStack) {
    exists k: nat :: ClosestAt(faults, tid, offTs, wokeAt, k) && faults[k] == f
  }

  lemma StillClosest(init: seq<FaultStack>, f: FaultStack, tid: nat, offTs: int, wokeAt: int, k: nat)
    requires ClosestAt(init, tid, offTs, wokeAt, k)
    requires Spans(f, tid, offTs, wokeAt) ==> Abs(f.end - wokeAt) >= Abs(init[k].end - wokeAt)
    ensures ClosestSpans(init + [f], tid, offTs, wokeAt, init[k])
  {
    assert ClosestAt(init + [f], tid, offTs, wokeAt, k);
  }

  lemma NewClosest(init: seq<FaultStack>, f: FaultStack, tid: nat, offTs: int, wokeAt: int)
    requires Spans(f, tid, offTs, wokeAt)
    requires forall i :: 0 <= i < |init| && Spans(init[i], tid, offTs, wokeAt) ==> Abs(f.end - wokeAt) < Abs(init[i].end - wokeAt)
    ensures ClosestSpans(init + [f], tid, offTs, wokeAt, f)
  {
    assert (init + [f])[|init|] == f && ClosestAt(init + [f], tid, offTs, wokeAt, |init|);
  }

  lemma {:induction false} ClosestExactly(faults: seq<FaultStack>, tid: nat, offTs: int, wokeAt: int)
    ensures var best := ClosestFault(faults, tid, offTs, wokeAt);
      if best.Some? then ClosestSpans(faults, tid, offTs, wokeAt, best.value) else NoneSpans(faults, tid, offTs, wokeAt)
  {
    if faults != [] {
      var init, f := faults[..|faults| - 1], faults[|faults| - 1];
      var was := ClosestFault(init, tid, offTs, wokeAt);
      assert faults == init + [f];
      ClosestExactly(init, tid, offTs, wokeAt);
      if was.None? {
        if Spans(f, tid, offTs, wokeAt) {
          assert forall i :: 0 <= i < |init| ==> init[i] in init;
          NewClosest(init, f, tid, offTs, wokeAt);
        }
      } else {
        var k: nat :| ClosestAt(init, tid, offTs, wokeAt, k) && init[k] == was.value;
        if Spans(f, tid, offTs, wokeAt) && Abs(f.end - wokeAt) < Abs(was.value.end - wokeAt) {
          NewClosest(init, f, tid, offTs, wokeAt);
        } else {
          StillClosest(init, f, tid, offTs, wokeAt, k);
        }
      }
    }
  }

  ghost predicate NoneSpans(faults: seq<FaultStack>, tid: nat, offTs: int, wokeAt: int) {
    forall f :: f in faults ==> !Spans(f, tid, offTs, wokeAt)
  }

  lemma {:induction false} FirstSwitchInFacts(ins: seq<SwitchInStack>, tid: nat, offTs: int, wokeAt: int)
    ensures var s := FirstSwitchIn(ins, tid, offTs, wokeAt);
      s.Some? ==> s.value in ins && s.value.tid == tid && s.value.since == offTs && s.value.ts >= wokeAt
  {
    if ins != [] {
      FirstSwitchInFacts(ins[1..], tid, offTs, wokeAt);
    }
  }

  /** A kept switch-in of exactly this wait, after the wake-up. */
  predicate EndsWait(s: SwitchInStack, tid: nat, offTs: int, wokeAt: int) { s.tid == tid && s.since == offTs && s.ts >= wokeAt }

  /** The first kept that ends the wait. */
  ghost predicate FirstEnds(ins: seq<SwitchInStack>, tid: nat, offTs: int, wokeAt: int, s: SwitchInStack) {
    exists k :: 0 <= k < |ins| && ins[k] == s && EndsWait(s, tid, offTs, wokeAt) && forall i :: 0 <= i < k ==> !EndsWait(ins[i], tid, offTs, wokeAt)
  }

  ghost predicate NoneEnds(ins: seq<SwitchInStack>, tid: nat, offTs: int, wokeAt: int) {
    forall s :: s in ins ==> !EndsWait(s, tid, offTs, wokeAt)
  }

  lemma {:induction false} FirstSwitchInExactly(ins: seq<SwitchInStack>, tid: nat, offTs: int, wokeAt: int)
    ensures var first := FirstSwitchIn(ins, tid, offTs, wokeAt);
      if first.Some? then FirstEnds(ins, tid, offTs, wokeAt, first.value) else NoneEnds(ins, tid, offTs, wokeAt)
  {
    if ins != [] {
      FirstSwitchInExactly(ins[1..], tid, offTs, wokeAt);
      assert ins == [ins[0]] + ins[1..];
      var first := FirstSwitchIn(ins, tid, offTs, wokeAt);
      if first.Some? && !EndsWait(ins[0], tid, offTs, wokeAt) {
        var k :| 0 <= k < |ins[1..]| && ins[1..][k] == first.value && EndsWait(first.value, tid, offTs, wokeAt)
          && forall i :: 0 <= i < k ==> !EndsWait(ins[1..][i], tid, offTs, wokeAt);
        assert ins[k + 1] == first.value && forall i :: 0 <= i < k + 1 ==> !EndsWait(ins[i], tid, offTs, wokeAt);
      }
    }
  }

  /** A stack is found whenever one is kept for the wait: the first switch-in that ends it, or, if none
      does, the closest fault that spans it. */
  lemma WaitStackExactly(tid: nat, offTs: int, wokeAt: int, ins: seq<SwitchInStack>, faults: seq<FaultStack>)
    ensures match WaitStack(tid, offTs, wokeAt, ins, faults)
      case None => NoneEnds(ins, tid, offTs, wokeAt) && NoneSpans(faults, tid, offTs, wokeAt)
      case Some((stack, BySwitchIn)) => exists s :: FirstEnds(ins, tid, offTs, wokeAt, s) && s.stack == stack
      case Some((stack, ByFault)) =>
        NoneEnds(ins, tid, offTs, wokeAt) && exists f :: ClosestSpans(faults, tid, offTs, wokeAt, f) && f.stack == stack
  {
    FirstSwitchInExactly(ins, tid, offTs, wokeAt);
    ClosestExactly(faults, tid, offTs, wokeAt);
  }

  // ---- One stack, one wait ----------------------------------------------------------------------

  /** A thread is switched in before it is switched out again. */
  ghost predicate Alternates(sws: seq<SwitchRec>, tid: nat) {
    forall i: nat, j: nat :: i < j < |sws| && sws[i].oldTid == tid && sws[j].oldTid == tid ==> BackBetween(sws, i, j, tid)
  }

  ghost predicate BackBetween(sws: seq<SwitchRec>, i: nat, j: nat, tid: nat) {
    exists m: nat :: i < m <= j && m < |sws| && sws[m].newTid == tid
  }

  /** Neither end of `tid`'s occupancy falls strictly between `k` and `m`. */
  predicate Untouched(sws: seq<SwitchRec>, k: nat, m: nat, tid: nat) {
    forall j :: k < j < m && j < |sws| ==> sws[j].newTid != tid && sws[j].oldTid != tid
  }

  /** The switches before a switch event, and the switch itself, are where they belong among all. */
  lemma {:induction false} SwitchAt(run: seq<Event>, j: nat)
    requires j < |run| && run[j].SwitchEvent?
    ensures |SwitchesIn(run[..j])| < |SwitchesIn(run)|
    ensures SwitchesIn(run)[..|SwitchesIn(run[..j])|] == SwitchesIn(run[..j])
    ensures SwitchesIn(run)[|SwitchesIn(run[..j])|] == run[j].sw
  {
    var init := run[..|run| - 1];
    if j < |init| {
      SwitchAt(init, j);
      assert init[..j] == run[..j];
    }
  }

  /** Every kept switch-in stack followed the switch event at step `j`, and its `since` is the
      thread's newest switch-out before that one, into a wait, with no switch-in between. */
  lemma SinceIsNewest(run: seq<Event>, asked: set<Kind>, switchCap: nat, readyCap: nat, s: SwitchInStack)
      returns (k: nat, j: nat, m: nat)
    requires s in Replay(run, asked, switchCap, readyCap).switchIns && Alternates(SwitchesIn(run), s.tid)
    ensures OwnedAt(run, ForSwitchIn(s.tid, s.since), s.ts, s.stack, j, m)
    ensures var sws, i := SwitchesIn(run), |SwitchesIn(run[..j])|;
      k < i < |sws| && sws[i] == run[j].sw && OffAt(sws, k, s.tid, s.since) && Untouched(sws, k, i, s.tid)
  {
    RunHonest(run, asked, switchCap, readyCap);
    j, m :| OwnedAt(run, ForSwitchIn(s.tid, s.since), s.ts, s.stack, j, m);
    SwitchAt(run, j);
    k := WaitBegan(SwitchesIn(run), |SwitchesIn(run[..j])|, SwitchesIn(run[..j]), s.tid, s.since);
  }

  lemma WaitBegan(sws: seq<SwitchRec>, i: nat, before: seq<SwitchRec>, tid: nat, since: int) returns (k: nat)
    requires i == |before| < |sws| && sws[..i] == before && Alternates(sws, tid)
    requires exists reason: int :: Worth(reason) && Waiting(before, tid, (since, reason))
    ensures k < i && OffAt(sws, k, tid, since) && Untouched(sws, k, i, tid)
  {
    var reason: int :| Worth(reason) && Waiting(before, tid, (since, reason));
    var off: nat :| OffAt(before, off, tid, since) && NotBack(before, off, |before|, tid);
    k := off;
    assert NotBack(before, off, |before|, tid);
    assert forall j :: 0 <= j < i ==> sws[j] == before[j];
    assert OffAt(sws, k, tid, since) && NotBack(sws, k, i, tid);
    forall j: nat | k < j < i ensures sws[j].oldTid != tid {
      assert sws[j].oldTid == tid ==> BackBetween(sws, k, j, tid);
    }
  }

  /** The index of the newest switch-out at or before `at`. */
  lemma {:induction false} NewestOffIndex(sws: seq<SwitchRec>, tid: nat, at: int) returns (k: nat)
    requires NewestOff(sws, tid, at).Some?
    ensures k < |sws| && sws[k] == NewestOff(sws, tid, at).value && sws[k].oldTid == tid && sws[k].ts <= at
    ensures forall j :: k < j < |sws| && sws[j].oldTid == tid ==> sws[j].ts > at
  {
    var last := sws[|sws| - 1];
    if last.oldTid == tid && last.ts <= at {
      k := |sws| - 1;
    } else {
      k := NewestOffIndex(sws[..|sws| - 1], tid, at);
    }
  }

  /** Given the wait that the wake-up at `wokeAt` ended, a stack returned as that of a switch-in
      followed the switch event that ended THAT wait: the thread's next one after it was switched off
      (`k`), with nothing happening to it in between, so it is never the stack of its next wait. `ins`
      may be any selection from the kept stacks. */
  lemma StackOfThisWait(run: seq<Event>, asked: set<Kind>, switchCap: nat, readyCap: nat, tid: nat, wokeAt: int,
                        ins: seq<SwitchInStack>, faults: seq<FaultStack>, stack: Stack) returns (k: nat, j: nat, m: nat)
    requires TimeOrdered(SwitchesIn(run), SwitchTs) && Alternates(SwitchesIn(run), tid)
    requires forall s :: s in ins ==> s in Replay(run, asked, switchCap, readyCap).switchIns
    requires WaitBefore(SwitchesIn(run), tid, wokeAt).Some?
    requires WaitStack(tid, WaitBefore(SwitchesIn(run), tid, wokeAt).value.ts, wokeAt, ins, faults) == Some((stack, BySwitchIn))
    ensures CarriedBy(run, j, m, stack) && run[j].SwitchEvent? && run[j].sw.newTid == tid
    ensures var sws, i := SwitchesIn(run), |SwitchesIn(run[..j])|;
      && k < i < |sws| && sws[k] == WaitBefore(sws, tid, wokeAt).value && sws[i] == run[j].sw
      && Untouched(sws, k, i, tid) && sws[k].ts <= wokeAt <= sws[i].ts
  {
    var sws := SwitchesIn(run);
    var off := WaitBefore(sws, tid, wokeAt).value;
    FirstSwitchInFacts(ins, tid, off.ts, wokeAt);
    var s := FirstSwitchIn(ins, tid, off.ts, wokeAt).value;
    k, j, m := SinceIsNewest(run, asked, switchCap, readyCap, s);
    var i := |SwitchesIn(run[..j])|;
    var k' := NewestOffIndex(sws, tid, wokeAt);
    assert KEEP_WAIT > 0;
    assert k == k';
  }

  // ---- Faults -----------------------------------------------------------------------------------

  /** A stack returned as a fault's followed a fault event of that thread that spans the wait, and no
      kept one that does completed closer to the wake-up. A fault returned for a wait longer than the
      slack began before the wake-up. */
  lemma FaultOfThisWait(run: seq<Event>, asked: set<Kind>, switchCap: nat, readyCap: nat, tid: nat, offTs: int, wokeAt: int,
                        ins: seq<SwitchInStack>, faults: seq<FaultStack>, stack: Stack) returns (j: nat, m: nat)
    requires forall f :: f in faults ==> f in Replay(run, asked, switchCap, readyCap).faults
    requires WaitStack(tid, offTs, wokeAt, ins, faults) == Some((stack, ByFault))
    ensures CarriedBy(run, j, m, stack) && run[j].FaultEvent? && run[j].tid == tid
    ensures run[j].start <= offTs + SLACK && wokeAt - SLACK <= run[j].ts <= wokeAt + FAULT_LATE
    ensures run[j].ts - run[j].start >= KEEP_WAIT
    ensures forall f :: f in faults && Spans(f, tid, offTs, wokeAt) ==> Abs(run[j].ts - wokeAt) <= Abs(f.end - wokeAt)
    ensures wokeAt - offTs > SLACK ==> run[j].start < wokeAt
  {
    ClosestFaultMeaning(faults, tid, offTs, wokeAt);
    var f := ClosestFault(faults, tid, offTs, wokeAt).value;
    KeptFaultOwned(run, asked, switchCap, readyCap, f);
    j, m := FaultEventOf(run, f);
  }

  lemma KeptFaultOwned(run: seq<Event>, asked: set<Kind>, switchCap: nat, readyCap: nat, f: FaultStack)
    requires f in Replay(run, asked, switchCap, readyCap).faults
    ensures Owned(run, ForFault(f.start, f.tid), f.end, f.stack)
  {
    RunHonest(run, asked, switchCap, readyCap);
  }

  lemma FaultEventOf(run: seq<Event>, f: FaultStack) returns (j: nat, m: nat)
    requires Owned(run, ForFault(f.start, f.tid), f.end, f.stack)
    ensures CarriedBy(run, j, m, f.stack) && run[j].FaultEvent?
    ensures run[j].tid == f.tid && run[j].start == f.start && run[j].ts == f.end && f.end - f.start >= KEEP_WAIT
  {
    j, m :| OwnedAt(run, ForFault(f.start, f.tid), f.end, f.stack, j, m);
  }

  /** The matcher keeps no shorter fault. */
  predicate LongFaults(faults: seq<FaultStack>) {
    forall f :: f in faults ==> f.end - f.start >= KEEP_WAIT
  }

  lemma KeptFaultsAreLong(run: seq<Event>, asked: set<Kind>, switchCap: nat, readyCap: nat)
    ensures LongFaults(Replay(run, asked, switchCap, readyCap).faults)
  {
    forall f | f in Replay(run, asked, switchCap, readyCap).faults ensures f.end - f.start >= KEEP_WAIT {
      KeptFaultOwned(run, asked, switchCap, readyCap, f);
      var _, _ := FaultEventOf(run, f);
    }
  }

  /** Whatever faults are kept, the one chosen began before the wake-up. */
  ghost predicate BeganBefore(tid: nat, offTs: int, wokeAt: int) {
    forall faults: seq<FaultStack> ::
      LongFaults(faults) && ClosestFault(faults, tid, offTs, wokeAt).Some? ==> ClosestFault(faults, tid, offTs, wokeAt).value.start < wokeAt
  }

  /** That is so exactly for waits longer than the slack: at or below it, a fault that only begins with
      the wake-up, and lasts no longer than it must to be kept, is chosen. */
  lemma FaultBeganBeforeExactly(tid: nat, offTs: int, wokeAt: int)
    ensures BeganBefore(tid, offTs, wokeAt) <==> wokeAt - offTs > SLACK
  {
    forall faults: seq<FaultStack> | wokeAt - offTs > SLACK && ClosestFault(faults, tid, offTs, wokeAt).Some?
      ensures ClosestFault(faults, tid, offTs, wokeAt).value.start < wokeAt
    {
      ClosestFaultMeaning(faults, tid, offTs, wokeAt);
    }
    if wokeAt - offTs <= SLACK {
      var f := FaultStack(wokeAt, wokeAt + KEEP_WAIT, tid, Stack(0, [], false));
      assert [f][..0] == [] && LongFaults([f]);
      assert ClosestFault([f], tid, offTs, wokeAt) == Some(f);
    }
  }

  /** A stuck thread's stack is looked up for the wait its wake-up ended, and every such wait is longer
      than the slack. */
  lemma StuckLookup(slow: IoRec, others: seq<IoRec>, sw: seq<SwitchRec>, rd: seq<ReadyRec>, s: Stuck)
    requires s in StuckBehindOf(slow, others, sw, rd)
    ensures WaitBefore(sw, s.tid, s.wokeAt).Some? && WaitBefore(sw, s.tid, s.wokeAt).value.ts == s.wokeAt - s.waited
    ensures BeganBefore(s.tid, s.wokeAt - s.waited, s.wokeAt)
  {
    StuckBehindMeaning(slow, others, sw, rd);
    var j: nat :| Says(Judged(slow, others, sw), rd, j, s);
    FaultBeganBeforeExactly(s.tid, s.wokeAt - s.waited, s.wokeAt);
  }

  /** So is a lock waiter's. */
  lemma ChainLookup(slow: IoRec, stuck: seq<Stuck>, sw: seq<SwitchRec>, rd: seq<ReadyRec>, c: LockChain)
    requires c in LockChainsOf(slow, stuck, sw, rd)
    ensures WaitBefore(sw, c.waiter, c.wokeAt).Some? && WaitBefore(sw, c.waiter, c.wokeAt).value.ts == c.wokeAt - c.waited
  {
    LockChainsMeaning(slow, stuck, sw, rd);
    var j: nat :| Says(JudgedLock(slow, stuck, sw), rd, j, c);
  }
}
