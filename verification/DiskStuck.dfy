/** The threads a slow disk request kept waiting, and the threads those kept waiting on a lock. */
module DiskStuck {
  import opened Trace
  import opened Seqs

  /** 1 ms past the completion... */
  const READY_AFTER: nat := FREQ / 1000
  /** ...and 0.1 ms before it. */
  const READY_BEFORE: nat := FREQ / 10_000
  /** 10 ms: the least wait that is felt. */
  const STUCK_MIN: nat := FREQ / 100
  /** 20 ms for a stuck thread to let go of a lock. */
  const LOCK_AFTER: nat := FREQ / 50
  /** 21 ms: how far past the completion the trace must reach. */
  const LOOK_AFTER: nat := FREQ * 21 / 1000

  /** All that is relied on about the look-ahead: it reaches past the last lock wake-up. */
  lemma LookAfterReaches()
    ensures LOOK_AFTER >= READY_AFTER + LOCK_AFTER && LOCK_AFTER > 0
  {}

  datatype Stuck = Stuck(tid: nat, waited: int, reason: int, wokeAt: int)

  datatype LockChain = LockChain(waiter: nat, holder: nat, waited: int, wokeAt: int)

  /** How `tid` last lost a processor, up to and including `at`. */
  function NewestOff(sw: seq<SwitchRec>, tid: nat, at: int): Option<SwitchRec> {
    Last(sw, OffBy(tid, at))
  }

  function OffBy(tid: nat, at: int): SwitchRec -> bool {
    (s: SwitchRec) => s.oldTid == tid && s.ts <= at
  }

  /** ...if that was into a wait. */
  function WaitBefore(sw: seq<SwitchRec>, tid: nat, at: int): Option<SwitchRec> {
    var off := NewestOff(sw, tid, at);
    if off.Some? && off.value.oldState == STATE_WAITING then off else None
  }

  predicate Names<J>(out: seq<J>, tidOf: J -> nat, tid: nat) {
    exists k :: 0 <= k < |out| && tidOf(out[k]) == tid
  }

  /** The first telling wake-up of each thread, in the order of the wake-ups. */
  function FirstTellings<J>(judge: ReadyRec -> Option<J>, tidOf: J -> nat, rd: seq<ReadyRec>): seq<J> {
    if rd == [] then []
    else
      var out, r := FirstTellings(judge, tidOf, rd[..|rd| - 1]), rd[|rd| - 1];
      var j := judge(r);
      if j.None? || Names(out, tidOf, r.tid) then out else out + [j.value]
  }

  /** Another request that could explain the wake-up of `r` at least as well as `slow`. */
  predicate Rival(slow: IoRec, o: IoRec, r: ReadyRec, off: SwitchRec) {
    && !(o.end == slow.end && o.dur == slow.dur && o.tid == slow.tid && o.disk == slow.disk)
    && o.end - o.dur <= off.ts && o.end <= slow.end + READY_AFTER
    && Abs(o.end - r.ts) <= Abs(slow.end - r.ts) && o.end > off.ts
  }

  /** What one wake-up says on its own: the thread was stuck behind `slow`, or nothing. */
  function Judge(slow: IoRec, others: seq<IoRec>, sw: seq<SwitchRec>, r: ReadyRec): Option<Stuck> {
    if !(slow.end - READY_BEFORE <= r.ts <= slow.end + READY_AFTER) || r.tid == IDLE_TID then None
    else
      var before := WaitBefore(sw, r.tid, r.ts);
      if before.None? then None
      else
        var off, issuer := before.value, r.tid == slow.tid;
        if off.ts < slow.end - slow.dur || off.ts >= slow.end then None
        else if !(DiskWait(off.oldReason) || (issuer && !VoluntaryWait(off.oldReason))) then None
        else if !issuer && exists o :: o in others && Rival(slow, o, r, off) then None
        else if r.ts - off.ts < STUCK_MIN then None
        else Some(Stuck(r.tid, r.ts - off.ts, off.oldReason, r.ts))
  }

  function StuckTid(s: Stuck): nat { s.tid }

  function Judged(slow: IoRec, others: seq<IoRec>, sw: seq<SwitchRec>): ReadyRec -> Option<Stuck> {
    (r: ReadyRec) => Judge(slow, others, sw, r)
  }

  /** Longest wait first, ties by thread. */
  function StuckKey(s: Stuck): Key { (-s.waited, s.tid) }

  function StuckBehindOf(slow: IoRec, others: seq<IoRec>, sw: seq<SwitchRec>, rd: seq<ReadyRec>): seq<Stuck> {
    SortBy(FirstTellings(Judged(slow, others, sw), StuckTid, rd), StuckKey)
  }

  /** The first stuck thread with this id. */
  function FindStuck(stuck: seq<Stuck>, tid: nat): Option<Stuck> {
    if stuck == [] then None
    else if stuck[0].tid == tid then Some(stuck[0])
    else FindStuck(stuck[1..], tid)
  }

  /** What one wake-up says about a lock: a stuck thread let go of it, or nothing. */
  function JudgeLock(slow: IoRec, stuck: seq<Stuck>, sw: seq<SwitchRec>, r: ReadyRec): Option<LockChain> {
    var waker := r.Waker();
    if waker.None? then None
    else
      var holder := FindStuck(stuck, waker.value);
      if holder.None? then None
      else if r.ts < holder.value.wokeAt || r.ts > holder.value.wokeAt + LOCK_AFTER || Names(stuck, StuckTid, r.tid) then None
      else
        var before := WaitBefore(sw, r.tid, r.ts);
        if before.None? then None
        else
          var off := before.value;
          if off.ts < slow.end - slow.dur || off.ts >= holder.value.wokeAt || !LockWait(off.oldReason) then None
          else if r.ts - off.ts < STUCK_MIN then None
          else Some(LockChain(r.tid, waker.value, r.ts - off.ts, r.ts))
  }

  function ChainTid(c: LockChain): nat { c.waiter }

  function JudgedLock(slow: IoRec, stuck: seq<Stuck>, sw: seq<SwitchRec>): ReadyRec -> Option<LockChain> {
    (r: ReadyRec) => JudgeLock(slow, stuck, sw, r)
  }

  function ChainKey(c: LockChain): Key { (-c.waited, c.waiter) }

  function LockChainsOf(slow: IoRec, stuck: seq<Stuck>, sw: seq<SwitchRec>, rd: seq<ReadyRec>): seq<LockChain> {
    SortBy(FirstTellings(JudgedLock(slow, stuck, sw), ChainTid, rd), ChainKey)
  }

  // ---- What the answers mean --------------------------------------------------------------------

  /** `j` is the index of its thread's first telling wake-up. */
  ghost predicate FirstTelling<J(!new)>(judge: ReadyRec -> Option<J>, rd: seq<ReadyRec>, j: nat) {
    && j < |rd| && judge(rd[j]).Some?
    && forall i :: 0 <= i < j && rd[i].tid == rd[j].tid ==> judge(rd[i]).None?
  }

  ghost predicate Says<J(!new)>(judge: ReadyRec -> Option<J>, rd: seq<ReadyRec>, j: nat, x: J) {
    FirstTelling(judge, rd, j) && judge(rd[j]) == Some(x)
  }

  /** Some thread's first telling wake-up says `x`. */
  ghost predicate Told<J(!new)>(judge: ReadyRec -> Option<J>, rd: seq<ReadyRec>, x: J) {
    exists j: nat :: Says(judge, rd, j, x)
  }

  ghost predicate OncePerTid<J(!new)>(out: seq<J>, tidOf: J -> nat) {
    forall a, b :: 0 <= a < b < |out| ==> tidOf(out[a]) != tidOf(out[b])
  }

  ghost predicate Keyed<J(!new)>(judge: ReadyRec -> Option<J>, tidOf: J -> nat) {
    forall r: ReadyRec :: judge(r).Some? ==> tidOf(judge(r).value) == r.tid
  }

  /** A thread is reported exactly when some wake-up of it tells, with what its FIRST such wake-up
      says, and once. */
  lemma {:induction false} FirstTellingsMeaning<J(!new)>(judge: ReadyRec -> Option<J>, tidOf: J -> nat, rd: seq<ReadyRec>)
    requires Keyed(judge, tidOf)
    ensures forall x :: x in FirstTellings(judge, tidOf, rd) <==> Told(judge, rd, x)
    ensures OncePerTid(FirstTellings(judge, tidOf, rd), tidOf)
  {
    if rd != [] {
      var n := |rd| - 1;
      var init, r := rd[..n], rd[n];
      FirstTellingsMeaning(judge, tidOf, init);
      var before, out := FirstTellings(judge, tidOf, init), FirstTellings(judge, tidOf, rd);
      forall x ensures Told(judge, rd, x) <==> Told(judge, init, x) || Says(judge, rd, n, x) {
        TellingPrefix(judge, rd, x);
      }
      if judge(r).Some? {
        if Names(before, tidOf, r.tid) {
          var k :| 0 <= k < |before| && tidOf(before[k]) == r.tid;
          assert before[k] in before && Told(judge, init, before[k]);
          var i: nat :| Says(judge, init, i, before[k]);
          assert rd[i].tid == r.tid && rd[i] == init[i];
          assert !FirstTelling(judge, rd, n);
        } else {
          if i :| 0 <= i < n && rd[i].tid == r.tid && judge(rd[i]).Some? {
            var k := FirstOf(judge, init, i);
            var y := judge(init[k]).value;
            assert Says(judge, init, k, y) && Told(judge, init, y);
            NamedBy(before, tidOf, y);
            assert false;
          }
          assert Says(judge, rd, n, judge(r).value);
        }
      }
    }
  }

  lemma NamedBy<J(!new)>(out: seq<J>, tidOf: J -> nat, x: J)
    requires x in out
    ensures Names(out, tidOf, tidOf(x))
  {
    var k :| 0 <= k < |out| && out[k] == x;
    assert tidOf(out[k]) == tidOf(x);
  }

  lemma TellingPrefix<J(!new)>(judge: ReadyRec -> Option<J>, rd: seq<ReadyRec>, x: J)
    requires rd != []
    ensures Told(judge, rd, x) <==> Told(judge, rd[..|rd| - 1], x) || Says(judge, rd, |rd| - 1, x)
  {
    var init := rd[..|rd| - 1];
    forall j: nat | j < |init| ensures Says(judge, init, j, x) <==> Says(judge, rd, j, x) {
      assert forall i :: 0 <= i <= j ==> rd[i] == init[i];
    }
    if j: nat :| Says(judge, rd, j, x) {
      assert j == |rd| - 1 || Says(judge, init, j, x);
    }
  }

  /** The first telling wake-up of a thread that has one. */
  lemma FirstOf<J(!new)>(judge: ReadyRec -> Option<J>, rd: seq<ReadyRec>, i: nat) returns (k: nat)
    requires i < |rd| && judge(rd[i]).Some?
    ensures k <= i && rd[k].tid == rd[i].tid && FirstTelling(judge, rd, k)
    decreases i
  {
    if j :| 0 <= j < i && rd[j].tid == rd[i].tid && judge(rd[j]).Some? {
      k := FirstOf(judge, rd, j);
    } else {
      k := i;
    }
  }

  /** What the list of stuck threads is: the threads some wake-up tells on, each once and with its
      first one, longest wait first. */
  lemma StuckBehindMeaning(slow: IoRec, others: seq<IoRec>, sw: seq<SwitchRec>, rd: seq<ReadyRec>)
    ensures var out := StuckBehindOf(slow, others, sw, rd);
      && (forall s :: s in out <==> Told(Judged(slow, others, sw), rd, s))
      && (forall a, b :: 0 <= a < b < |out| ==> out[a].waited > out[b].waited || (out[a].waited == out[b].waited && out[a].tid < out[b].tid))
  {
    var judge := Judged(slow, others, sw);
    var tidOf := StuckTid;
    var list := FirstTellings(judge, tidOf, rd);
    FirstTellingsMeaning(judge, tidOf, rd);
    SortByMeaning(list, StuckKey);
    forall a, b | 0 <= a < b < |list| ensures StuckKey(list[a]).1 != StuckKey(list[b]).1 {
      assert tidOf(list[a]) != tidOf(list[b]);
    }
    SortedStrictly(list, StuckKey);
  }

  lemma LockChainsMeaning(slow: IoRec, stuck: seq<Stuck>, sw: seq<SwitchRec>, rd: seq<ReadyRec>)
    ensures var out := LockChainsOf(slow, stuck, sw, rd);
      && (forall c :: c in out <==> Told(JudgedLock(slow, stuck, sw), rd, c))
      && (forall a, b :: 0 <= a < b < |out| ==> out[a].waited > out[b].waited || (out[a].waited == out[b].waited && out[a].waiter < out[b].waiter))
  {
    var judge := JudgedLock(slow, stuck, sw);
    var tidOf := ChainTid;
    var list := FirstTellings(judge, tidOf, rd);
    FirstTellingsMeaning(judge, tidOf, rd);
    SortByMeaning(list, ChainKey);
    forall a, b | 0 <= a < b < |list| ensures ChainKey(list[a]).1 != ChainKey(list[b]).1 {
      assert tidOf(list[a]) != tidOf(list[b]);
    }
    SortedStrictly(list, ChainKey);
  }

  // ---- What a wake-up must satisfy to tell ------------------------------------------------------

  /** The wake-up ended a wait that began with `off`: how the thread last lost a processor. */
  ghost predicate EndedWait(sw: seq<SwitchRec>, r: ReadyRec, off: SwitchRec) {
    IsLast(sw, (s: SwitchRec) => s.oldTid == r.tid && s.ts <= r.ts, off) && off.oldState == STATE_WAITING
  }

  /** Another request, outstanding when the wait began, completed in time and no further from the wake-up
      than `slow`. */
  ghost predicate ExplainedBy(slow: IoRec, o: IoRec, r: ReadyRec, off: SwitchRec) {
    && (o.end != slow.end || o.dur != slow.dur || o.tid != slow.tid || o.disk != slow.disk)
    && o.end - o.dur <= off.ts < o.end <= slow.end + READY_AFTER
    && (if o.end < r.ts then r.ts - o.end else o.end - r.ts) <= (if slow.end < r.ts then r.ts - slow.end else slow.end - r.ts)
  }

  /** All it takes for a wake-up to tell of a thread stuck behind `slow`. */
  ghost predicate TellsStuck(slow: IoRec, others: seq<IoRec>, sw: seq<SwitchRec>, r: ReadyRec, off: SwitchRec) {
    && slow.end - READY_BEFORE <= r.ts <= slow.end + READY_AFTER && r.tid != IDLE_TID
    && EndedWait(sw, r, off)
    && slow.end - slow.dur <= off.ts < slow.end && r.ts - off.ts >= STUCK_MIN
    && if r.tid == slow.tid then DiskWait(off.oldReason) || !VoluntaryWait(off.oldReason)
       else DiskWait(off.oldReason) && forall o :: o in others ==> !ExplainedBy(slow, o, r, off)
  }

  /** Wake-up `j` is the first of its thread to tell, and `s` is what it tells. */
  ghost predicate StuckAt(slow: IoRec, others: seq<IoRec>, sw: seq<SwitchRec>, rd: seq<ReadyRec>, j: nat, s: Stuck) {
    && j < |rd| && s.tid == rd[j].tid && s.wokeAt == rd[j].ts
    && (exists off :: TellsStuck(slow, others, sw, rd[j], off) && s.waited == rd[j].ts - off.ts && s.reason == off.oldReason)
    && forall i, off :: 0 <= i < j && rd[i].tid == rd[j].tid ==> !TellsStuck(slow, others, sw, rd[i], off)
  }

  /** All it takes for a wake-up to tell of a lock the stuck thread `holder` let go of. */
  ghost predicate TellsLock(slow: IoRec, stuck: seq<Stuck>, sw: seq<SwitchRec>, r: ReadyRec, holder: Stuck, off: SwitchRec) {
    && r.flag % 2 == 0 && r.byTid != IDLE_TID && r.byTid != r.tid
    && FirstNamed(stuck, r.byTid, holder) && holder.wokeAt <= r.ts <= holder.wokeAt + LOCK_AFTER
    && (forall s :: s in stuck ==> s.tid != r.tid)
    && EndedWait(sw, r, off)
    && slow.end - slow.dur <= off.ts < holder.wokeAt && r.ts - off.ts >= STUCK_MIN && LockWait(off.oldReason)
  }

  ghost predicate FirstNamed(stuck: seq<Stuck>, tid: nat, s: Stuck) {
    exists k :: 0 <= k < |stuck| && stuck[k] == s && s.tid == tid && forall i :: 0 <= i < k ==> stuck[i].tid != tid
  }

  ghost predicate ChainAt(slow: IoRec, stuck: seq<Stuck>, sw: seq<SwitchRec>, rd: seq<ReadyRec>, j: nat, c: LockChain) {
    && j < |rd| && c.waiter == rd[j].tid && c.holder == rd[j].byTid && c.wokeAt == rd[j].ts
    && (exists holder, off :: TellsLock(slow, stuck, sw, rd[j], holder, off) && c.waited == rd[j].ts - off.ts)
    && forall i, holder, off :: 0 <= i < j && rd[i].tid == rd[j].tid ==> !TellsLock(slow, stuck, sw, rd[i], holder, off)
  }

  lemma WaitBeforeExactly(sw: seq<SwitchRec>, r: ReadyRec, off: SwitchRec)
    ensures WaitBefore(sw, r.tid, r.ts) == Some(off) <==> EndedWait(sw, r, off)
  {
    var lost := (s: SwitchRec) => s.oldTid == r.tid && s.ts <= r.ts;
    LastExactly(sw, lost, off);
    SameLast(sw, OffBy(r.tid, r.ts), lost);
  }

  lemma {:induction false} SameLast<T(!new)>(s: seq<T>, p: T -> bool, q: T -> bool)
    requires forall x :: p(x) == q(x)
    ensures Last(s, p) == Last(s, q)
  {
    if s != [] {
      SameLast(s[..|s| - 1], p, q);
    }
  }

  lemma RivalExactly(slow: IoRec, others: seq<IoRec>, r: ReadyRec, off: SwitchRec)
    ensures (exists o :: o in others && Rival(slow, o, r, off)) <==> !(forall o :: o in others ==> !ExplainedBy(slow, o, r, off))
  {
    forall o ensures Rival(slow, o, r, off) <==> ExplainedBy(slow, o, r, off) {}
  }

  lemma JudgeExactly(slow: IoRec, others: seq<IoRec>, sw: seq<SwitchRec>, r: ReadyRec, off: SwitchRec)
    ensures WaitBefore(sw, r.tid, r.ts) == Some(off) ==>
      Judge(slow, others, sw, r) == if TellsStuck(slow, others, sw, r, off) then Some(Stuck(r.tid, r.ts - off.ts, off.oldReason, r.ts)) else None
    ensures TellsStuck(slow, others, sw, r, off) ==> WaitBefore(sw, r.tid, r.ts) == Some(off)
  {
    WaitBeforeExactly(sw, r, off);
    RivalExactly(slow, others, r, off);
  }

  lemma {:induction false} FindExactly(stuck: seq<Stuck>, tid: nat, s: Stuck)
    ensures FindStuck(stuck, tid) == Some(s) <==> FirstNamed(stuck, tid, s)
  {
    if stuck != [] {
      FindExactly(stuck[1..], tid, s);
      if stuck[0].tid != tid {
        if k :| 0 <= k < |stuck| && stuck[k] == s && s.tid == tid && forall i :: 0 <= i < k ==> stuck[i].tid != tid {
          assert stuck[1..][k - 1] == s && forall i :: 0 <= i < k - 1 ==> stuck[1..][i].tid != tid;
        }
        if k :| 0 <= k < |stuck[1..]| && stuck[1..][k] == s && s.tid == tid && forall i :: 0 <= i < k ==> stuck[1..][i].tid != tid {
          assert stuck[k + 1] == s && forall i :: 0 <= i < k + 1 ==> stuck[i].tid != tid;
        }
      } else {
        assert FirstNamed(stuck, tid, stuck[0]);
      }
    }
  }

  lemma NobodyNamed(stuck: seq<Stuck>, tid: nat)
    ensures Names(stuck, StuckTid, tid) <==> exists s :: s in stuck && s.tid == tid
  {
    if s :| s in stuck && s.tid == tid {
      NamedBy(stuck, StuckTid, s);
    }
  }

  lemma JudgeLockExactly(slow: IoRec, stuck: seq<Stuck>, sw: seq<SwitchRec>, r: ReadyRec, holder: Stuck, off: SwitchRec)
    ensures r.Waker().Some? && FindStuck(stuck, r.byTid) == Some(holder) && WaitBefore(sw, r.tid, r.ts) == Some(off) ==>
      JudgeLock(slow, stuck, sw, r) == if TellsLock(slow, stuck, sw, r, holder, off) then Some(LockChain(r.tid, r.byTid, r.ts - off.ts, r.ts)) else None
    ensures TellsLock(slow, stuck, sw, r, holder, off) ==>
      r.Waker().Some? && FindStuck(stuck, r.byTid) == Some(holder) && WaitBefore(sw, r.tid, r.ts) == Some(off)
  {
    WaitBeforeExactly(sw, r, off);
    FindExactly(stuck, r.byTid, holder);
    NobodyNamed(stuck, r.tid);
  }

  /** Nothing but the conditions themselves: a thread is listed exactly with its first wake-up that meets
      them all. */
  lemma StuckExactly(slow: IoRec, others: seq<IoRec>, sw: seq<SwitchRec>, rd: seq<ReadyRec>, s: Stuck)
    ensures s in StuckBehindOf(slow, others, sw, rd) <==> exists j: nat :: StuckAt(slow, others, sw, rd, j, s)
  {
    StuckBehindMeaning(slow, others, sw, rd);
    var judge := Judged(slow, others, sw);
    forall j: nat ensures Says(judge, rd, j, s) <==> StuckAt(slow, others, sw, rd, j, s) {
      SaysStuck(slow, others, sw, rd, j, s);
    }
  }

  lemma JudgedAt(slow: IoRec, others: seq<IoRec>, sw: seq<SwitchRec>, r: ReadyRec)
    ensures Judge(slow, others, sw, r).None? <==> forall off :: !TellsStuck(slow, others, sw, r, off)
    ensures forall s :: Judge(slow, others, sw, r) == Some(s) <==>
      s.tid == r.tid && s.wokeAt == r.ts && exists off :: TellsStuck(slow, others, sw, r, off) && s.waited == r.ts - off.ts && s.reason == off.oldReason
  {
    forall off ensures TellsStuck(slow, others, sw, r, off) ==> WaitBefore(sw, r.tid, r.ts) == Some(off) {
      JudgeExactly(slow, others, sw, r, off);
    }
    if WaitBefore(sw, r.tid, r.ts).Some? {
      JudgeExactly(slow, others, sw, r, WaitBefore(sw, r.tid, r.ts).value);
    }
  }

  lemma SaysStuck(slow: IoRec, others: seq<IoRec>, sw: seq<SwitchRec>, rd: seq<ReadyRec>, j: nat, s: Stuck)
    ensures Says(Judged(slow, others, sw), rd, j, s) <==> StuckAt(slow, others, sw, rd, j, s)
  {
    if j < |rd| {
      JudgedAt(slow, others, sw, rd[j]);
      forall i | 0 <= i < j ensures Judge(slow, others, sw, rd[i]).None? <==> forall off :: !TellsStuck(slow, others, sw, rd[i], off) {
        JudgedAt(slow, others, sw, rd[i]);
      }
    }
  }

  lemma LockJudgedAt(slow: IoRec, stuck: seq<Stuck>, sw: seq<SwitchRec>, r: ReadyRec)
    ensures JudgeLock(slow, stuck, sw, r).None? <==> forall holder, off :: !TellsLock(slow, stuck, sw, r, holder, off)
    ensures forall c :: JudgeLock(slow, stuck, sw, r) == Some(c) <==>
      && c.waiter == r.tid && c.holder == r.byTid && c.wokeAt == r.ts
      && exists holder, off :: TellsLock(slow, stuck, sw, r, holder, off) && c.waited == r.ts - off.ts
  {
    forall holder, off ensures TellsLock(slow, stuck, sw, r, holder, off) ==>
      r.Waker().Some? && FindStuck(stuck, r.byTid) == Some(holder) && WaitBefore(sw, r.tid, r.ts) == Some(off)
    {
      JudgeLockExactly(slow, stuck, sw, r, holder, off);
    }
    if r.Waker().Some? && FindStuck(stuck, r.byTid).Some? && WaitBefore(sw, r.tid, r.ts).Some? {
      JudgeLockExactly(slow, stuck, sw, r, FindStuck(stuck, r.byTid).value, WaitBefore(sw, r.tid, r.ts).value);
    }
  }

  lemma SaysChain(slow: IoRec, stuck: seq<Stuck>, sw: seq<SwitchRec>, rd: seq<ReadyRec>, j: nat, c: LockChain)
    ensures Says(JudgedLock(slow, stuck, sw), rd, j, c) <==> ChainAt(slow, stuck, sw, rd, j, c)
  {
    if j < |rd| {
      LockJudgedAt(slow, stuck, sw, rd[j]);
      forall i | 0 <= i < j ensures JudgeLock(slow, stuck, sw, rd[i]).None? <==> forall holder, off :: !TellsLock(slow, stuck, sw, rd[i], holder, off) {
        LockJudgedAt(slow, stuck, sw, rd[i]);
      }
    }
  }

  lemma ChainsExactly(slow: IoRec, stuck: seq<Stuck>, sw: seq<SwitchRec>, rd: seq<ReadyRec>, c: LockChain)
    ensures c in LockChainsOf(slow, stuck, sw, rd) <==> exists j: nat :: ChainAt(slow, stuck, sw, rd, j, c)
  {
    LockChainsMeaning(slow, stuck, sw, rd);
    forall j: nat ensures Says(JudgedLock(slow, stuck, sw), rd, j, c) <==> ChainAt(slow, stuck, sw, rd, j, c) {
      SaysChain(slow, stuck, sw, rd, j, c);
    }
  }

  // ---- The loops --------------------------------------------------------------------------------

  method StuckBehind(slow: IoRec, others: seq<IoRec>, sw: seq<SwitchRec>, rd: seq<ReadyRec>) returns (out: seq<Stuck>)
    ensures out == StuckBehindOf(slow, others, sw, rd)
    ensures forall s :: s in out <==> exists j: nat :: StuckAt(slow, others, sw, rd, j, s)
  {
    var start := slow.end - slow.dur;
    var lo, hi := slow.end - READY_BEFORE, slow.end + READY_AFTER;
    ghost var judge := Judged(slow, others, sw);
    out := [];
    for i := 0 to |rd|
      invariant out == FirstTellings(judge, StuckTid, rd[..i])
    {
      assert rd[..i + 1][..i] == rd[..i];
      var r := rd[i];
      if !(lo <= r.ts <= hi && r.tid != IDLE_TID) || Names(out, StuckTid, r.tid) {
        continue;
      }
      var before := WaitBefore(sw, r.tid, r.ts);
      if before.None? {
        continue;
      }
      var off, issuer := before.value, r.tid == slow.tid;
      if off.ts < start || off.ts >= slow.end {
        continue;
      }
      if !(DiskWait(off.oldReason) || (issuer && !VoluntaryWait(off.oldReason))) {
        continue;
      }
      var rival := exists o :: o in others && Rival(slow, o, r, off);
      if rival && !issuer {
        continue;
      }
      if r.ts - off.ts < STUCK_MIN {
        continue;
      }
      out := out + [Stuck(r.tid, r.ts - off.ts, off.oldReason, r.ts)];
    }
    assert rd[..|rd|] == rd;
    out := SortBy(out, StuckKey);
    forall s ensures s in out <==> exists j: nat :: StuckAt(slow, others, sw, rd, j, s) {
      StuckExactly(slow, others, sw, rd, s);
    }
  }

  method LockChains(slow: IoRec, stuck: seq<Stuck>, sw: seq<SwitchRec>, rd: seq<ReadyRec>) returns (out: seq<LockChain>)
    ensures out == LockChainsOf(slow, stuck, sw, rd)
    ensures forall c :: c in out <==> exists j: nat :: ChainAt(slow, stuck, sw, rd, j, c)
  {
    var start := slow.end - slow.dur;
    ghost var judge := JudgedLock(slow, stuck, sw);
    out := [];
    for i := 0 to |rd|
      invariant out == FirstTellings(judge, ChainTid, rd[..i])
    {
      assert rd[..i + 1][..i] == rd[..i];
      var r := rd[i];
      var waker := r.Waker();
      if waker.None? {
        continue;
      }
      var found := FindStuck(stuck, waker.value);
      if found.None? {
        continue;
      }
      var holder := found.value;
      if r.ts < holder.wokeAt || r.ts > holder.wokeAt + LOCK_AFTER || Names(stuck, StuckTid, r.tid) {
        continue;
      }
      if Names(out, ChainTid, r.tid) {
        continue;
      }
      var before := WaitBefore(sw, r.tid, r.ts);
      if before.None? {
        continue;
      }
      var off := before.value;
      if off.ts < start || off.ts >= holder.wokeAt || !LockWait(off.oldReason) {
        continue;
      }
      if r.ts - off.ts < STUCK_MIN {
        continue;
      }
      out := out + [LockChain(r.tid, waker.value, r.ts - off.ts, r.ts)];
    }
    assert rd[..|rd|] == rd;
    out := SortBy(out, ChainKey);
    forall c ensures c in out <==> exists j: nat :: ChainAt(slow, stuck, sw, rd, j, c) {
      ChainsExactly(slow, stuck, sw, rd, c);
    }
  }
}
