/** What a slow completion is answered about the stack that issued its request. */
module DiskAnswers {
  import opened Trace
  import opened Seqs
  import opened Stacks
  import opened StackRuns
  import opened StackWaits
  import opened StackOwners
  import StackAnswers

  // ---- Which start is tracked -------------------------------------------------------------------

  /** The event neither starts the request again nor completes it, nor prunes a start of this tick. */
  predicate StillOpen(ev: Event, irp: nat, ts: int) {
    match ev
    case InitEvent(_, _, _, other, _) => other != irp
    case DoneEvent(_, other, _) => other != irp
    case PruneEvent(latest, keep, _) => ts >= latest - keep
    case _ => true
  }

  /** Step `n` started the request with room to track it, and that still stands. */
  ghost predicate OpenSince(run: seq<Event>, asked: set<Kind>, switchCap: nat, readyCap: nat, n: nat, irp: nat) {
    && StartAt(run, n, irp) && HasRoom(Replay(run[..n], asked, switchCap, readyCap), irp)
    && forall j :: n < j < |run| ==> StillOpen(run[j], irp, run[n].ts)
  }

  predicate Starts(st: State, ev: Event, irp: nat, ts: int) { ev.InitEvent? && ev.irp == irp && ev.ts == ts && HasRoom(st, irp) }

  predicate HasStart(st: State, irp: nat, ts: int) { irp in st.ioInit && st.ioInit[irp].0 == ts }

  lemma {:induction false} StartStep(st: State, ev: Event, irp: nat, ts: int)
    requires DiskInit in st.asked && irp != 0
    ensures HasStart(Apply(st, ev), irp, ts) <==> Starts(st, ev, irp, ts) || (HasStart(st, irp, ts) && StillOpen(ev, irp, ts))
  {
    match ev
    case StackEvent(_, _) =>
      if irp in st.ioInit {
        StackFrame(st, ev);
        IoInitStep(st, ev, irp);
      } else {
        StackFrame(st, ev);
      }
    case _ =>
  }

  ghost predicate OpenAt(run: seq<Event>, asked: set<Kind>, switchCap: nat, readyCap: nat, irp: nat, ts: int) {
    exists n: nat :: OpenSince(run, asked, switchCap, readyCap, n, irp) && run[n].ts == ts
  }

  lemma OpenNext(run: seq<Event>, ev: Event, asked: set<Kind>, switchCap: nat, readyCap: nat, n: nat, irp: nat)
    ensures n < |run| ==>
      (OpenSince(run + [ev], asked, switchCap, readyCap, n, irp)
       <==> OpenSince(run, asked, switchCap, readyCap, n, irp) && StillOpen(ev, irp, run[n].ts))
    ensures OpenSince(run + [ev], asked, switchCap, readyCap, |run|, irp)
      <==> ev.InitEvent? && ev.irp == irp && HasRoom(Replay(run, asked, switchCap, readyCap), irp)
  {
    var next := run + [ev];
    assert next[..|run|] == run && next[|run|] == ev;
    if n < |run| {
      assert next[..n] == run[..n] && next[n] == run[n];
      assert forall j :: 0 <= j < |run| ==> next[j] == run[j];
    }
  }

  lemma OpenAtNext(run: seq<Event>, ev: Event, asked: set<Kind>, switchCap: nat, readyCap: nat, irp: nat, ts: int)
    ensures OpenAt(run + [ev], asked, switchCap, readyCap, irp, ts) <==>
      || Starts(Replay(run, asked, switchCap, readyCap), ev, irp, ts)
      || (OpenAt(run, asked, switchCap, readyCap, irp, ts) && StillOpen(ev, irp, ts))
  {
    var next := run + [ev];
    OpenNext(run, ev, asked, switchCap, readyCap, |run|, irp);
    if n: nat :| OpenSince(next, asked, switchCap, readyCap, n, irp) && next[n].ts == ts {
      OpenNext(run, ev, asked, switchCap, readyCap, n, irp);
    }
    if n: nat :| OpenSince(run, asked, switchCap, readyCap, n, irp) && run[n].ts == ts {
      OpenNext(run, ev, asked, switchCap, readyCap, n, irp);
      assert next[n] == run[n];
    }
    assert next[|run|] == ev;
  }

  /** Over every run, a start of the request at this tick is tracked exactly when some step was one, with
      room for it, and the request has neither been started again nor completed since, nor the start
      pruned. */
  lemma {:induction false} StartsTrackedExactly(run: seq<Event>, asked: set<Kind>, switchCap: nat, readyCap: nat, irp: nat, ts: int)
    requires DiskInit in asked && irp != 0
    ensures HasStart(Replay(run, asked, switchCap, readyCap), irp, ts) <==> OpenAt(run, asked, switchCap, readyCap, irp, ts)
  {
    if run != [] {
      var init, ev := run[..|run| - 1], run[|run| - 1];
      assert run == init + [ev];
      StartsTrackedExactly(init, asked, switchCap, readyCap, irp, ts);
      RunAsked(init, asked, switchCap, readyCap);
      StartStep(Replay(init, asked, switchCap, readyCap), ev, irp, ts);
      OpenAtNext(init, ev, asked, switchCap, readyCap, irp, ts);
    }
  }

  // ---- Which stack it was given -----------------------------------------------------------------

  /** The step hands its stack to a start of the request at this tick. */
  ghost predicate GivenTo(st: State, ev: Event, irp: nat, ts: int) {
    ev.StackEvent? && Hands(st, ev, ForDiskInit(irp), ts, FromRaw(ev.raw))
  }

  predicate HasStack(st: State, irp: nat, ts: int, stack: Stack) { irp in st.ioInit && st.ioInit[irp] == (ts, Some(stack)) }

  lemma {:induction false} StackStep(st: State, ev: Event, irp: nat, ts: int, stack: Stack)
    requires DiskInit in st.asked && irp != 0
    ensures HasStack(Apply(st, ev), irp, ts, stack) <==>
      || (HasStart(st, irp, ts) && GivenTo(st, ev, irp, ts) && FromRaw(ev.raw) == stack)
      || (HasStack(st, irp, ts, stack) && StillOpen(ev, irp, ts) && !GivenTo(st, ev, irp, ts))
  {
    match ev
    case StackEvent(_, _) => StackOnStart(st, ev, irp, ts, stack);
    case _ =>
  }

  lemma {:induction false} StackOnStart(st: State, ev: Event, irp: nat, ts: int, stack: Stack)
    requires ev.StackEvent?
    ensures HasStack(Apply(st, ev), irp, ts, stack) <==>
      || (HasStart(st, irp, ts) && GivenTo(st, ev, irp, ts) && FromRaw(ev.raw) == stack)
      || (HasStack(st, irp, ts, stack) && !GivenTo(st, ev, irp, ts))
  {
    if Matched(st, ev).Some? {
      StackKept(st, ev);
    } else {
      StackLost(st, ev);
    }
  }

  /** Step `m` was the last to hand its stack to the start at step `n`, or to another at its tick. */
  ghost predicate AnsweredBy(run: seq<Event>, asked: set<Kind>, switchCap: nat, readyCap: nat, n: nat, m: nat, irp: nat) {
    && n < m < |run| && StartAt(run, n, irp)
    && GivenTo(Replay(run[..m], asked, switchCap, readyCap), run[m], irp, run[n].ts)
    && forall j :: m < j < |run| ==> !GivenTo(Replay(run[..j], asked, switchCap, readyCap), run[j], irp, run[n].ts)
  }

  ghost predicate AnsweredAt(run: seq<Event>, asked: set<Kind>, switchCap: nat, readyCap: nat, irp: nat, ts: int, stack: Stack) {
    exists n: nat, m: nat ::
      && OpenSince(run, asked, switchCap, readyCap, n, irp) && AnsweredBy(run, asked, switchCap, readyCap, n, m, irp)
      && run[n].ts == ts && FromRaw(run[m].raw) == stack
  }

  lemma AnsweredNext(run: seq<Event>, ev: Event, asked: set<Kind>, switchCap: nat, readyCap: nat, n: nat, m: nat, irp: nat)
    requires n < m
    ensures m < |run| ==>
      (AnsweredBy(run + [ev], asked, switchCap, readyCap, n, m, irp)
       <==> AnsweredBy(run, asked, switchCap, readyCap, n, m, irp)
            && !GivenTo(Replay(run, asked, switchCap, readyCap), ev, irp, run[n].ts))
    ensures n < |run| ==>
      (AnsweredBy(run + [ev], asked, switchCap, readyCap, n, |run|, irp)
       <==> StartAt(run, n, irp) && GivenTo(Replay(run, asked, switchCap, readyCap), ev, irp, run[n].ts))
  {
    var next := run + [ev];
    assert next[..|run|] == run && next[|run|] == ev;
    assert forall j :: 0 <= j < |run| ==> next[j] == run[j] && next[..j] == run[..j];
  }

  /** Over every run, the start tracked has this stack exactly when one was handed to it and this was the
      last. */
  lemma {:induction false} StacksGivenExactly(run: seq<Event>, asked: set<Kind>, switchCap: nat, readyCap: nat,
                                              irp: nat, ts: int, stack: Stack)
    requires DiskInit in asked && irp != 0
    ensures HasStack(Replay(run, asked, switchCap, readyCap), irp, ts, stack)
      <==> AnsweredAt(run, asked, switchCap, readyCap, irp, ts, stack)
  {
    if run != [] {
      var init, ev := run[..|run| - 1], run[|run| - 1];
      assert run == init + [ev];
      StacksGivenExactly(init, asked, switchCap, readyCap, irp, ts, stack);
      StartsTrackedExactly(init, asked, switchCap, readyCap, irp, ts);
      RunAsked(init, asked, switchCap, readyCap);
      StackStep(Replay(init, asked, switchCap, readyCap), ev, irp, ts, stack);
      GivenNext(init, ev, asked, switchCap, readyCap, irp, ts, stack);
    }
  }

  lemma GivenNext(run: seq<Event>, ev: Event, asked: set<Kind>, switchCap: nat, readyCap: nat, irp: nat, ts: int, stack: Stack)
    ensures var given := GivenTo(Replay(run, asked, switchCap, readyCap), ev, irp, ts);
      AnsweredAt(run + [ev], asked, switchCap, readyCap, irp, ts, stack) <==>
        || (OpenAt(run, asked, switchCap, readyCap, irp, ts) && given && FromRaw(ev.raw) == stack)
        || (AnsweredAt(run, asked, switchCap, readyCap, irp, ts, stack) && StillOpen(ev, irp, ts) && !given)
  {
    var next, st := run + [ev], Replay(run, asked, switchCap, readyCap);
    assert next[|run|] == ev && forall j :: 0 <= j < |run| ==> next[j] == run[j];
    if AnsweredAt(next, asked, switchCap, readyCap, irp, ts, stack) {
      var n: nat, m: nat :|
        && OpenSince(next, asked, switchCap, readyCap, n, irp) && AnsweredBy(next, asked, switchCap, readyCap, n, m, irp)
        && next[n].ts == ts && FromRaw(next[m].raw) == stack;
      OpenNext(run, ev, asked, switchCap, readyCap, n, irp);
      AnsweredNext(run, ev, asked, switchCap, readyCap, n, m, irp);
    }
    if OpenAt(run, asked, switchCap, readyCap, irp, ts) && GivenTo(st, ev, irp, ts) && FromRaw(ev.raw) == stack {
      var n: nat :| OpenSince(run, asked, switchCap, readyCap, n, irp) && run[n].ts == ts;
      OpenNext(run, ev, asked, switchCap, readyCap, n, irp);
      AnsweredNext(run, ev, asked, switchCap, readyCap, n, |run|, irp);
    }
    if AnsweredAt(run, asked, switchCap, readyCap, irp, ts, stack) && StillOpen(ev, irp, ts) && !GivenTo(st, ev, irp, ts) {
      var n: nat, m: nat :|
        && OpenSince(run, asked, switchCap, readyCap, n, irp) && AnsweredBy(run, asked, switchCap, readyCap, n, m, irp)
        && run[n].ts == ts && FromRaw(run[m].raw) == stack;
      OpenNext(run, ev, asked, switchCap, readyCap, n, irp);
      AnsweredNext(run, ev, asked, switchCap, readyCap, n, m, irp);
    }
  }

  // ---- The answer -------------------------------------------------------------------------------

  lemma LastShrunk(q: seq<SlowIo>, x: SlowIo, lost: Option<int>)
    ensures SlowIoStack(Shrink(q + [x], SLOW_IO_CAP, SlowEnd, lost).0, x.end, x.irp) == Some(x.what)
  {
    ShrinkKeepsNewest(q + [x], SLOW_IO_CAP, SlowEnd, lost);
    var kept := Shrink(q + [x], SLOW_IO_CAP, SlowEnd, lost).0;
    assert kept[|kept| - 1] == x && AnswerTo(x.end, x.irp)(x);
  }

  /** A slow completion is answered at once: that its start was not seen exactly when none is open, and
      with a stack exactly when one was handed to the open start, the last if there were two. */
  lemma {:induction false} SlowAnswerExactly(run: seq<Event>, asked: set<Kind>, switchCap: nat, readyCap: nat, end: int, irp: nat)
      returns (what: IoStack)
    requires DiskInit in asked && irp != 0
    ensures SlowIoStack(Replay(run + [DoneEvent(end, irp, true)], asked, switchCap, readyCap).slowIo, end, irp) == Some(what)
    ensures what.NoInit? <==> forall n: nat :: !OpenSince(run, asked, switchCap, readyCap, n, irp)
    ensures forall stack :: what == Found(stack) <==> exists ts: int :: AnsweredAt(run, asked, switchCap, readyCap, irp, ts, stack)
  {
    var st, done := Replay(run, asked, switchCap, readyCap), DoneEvent(end, irp, true);
    RunAsked(run, asked, switchCap, readyCap);
    what := Issued(st, irp);
    assert (run + [done])[..|run|] == run;
    LastShrunk(st.slowIo, SlowIo(end, irp, what), st.lost.slowIo);
    forall n: nat | OpenSince(run, asked, switchCap, readyCap, n, irp) ensures irp in st.ioInit {
      assert OpenAt(run, asked, switchCap, readyCap, irp, run[n].ts);
      StartsTrackedExactly(run, asked, switchCap, readyCap, irp, run[n].ts);
    }
    if irp in st.ioInit {
      StartsTrackedExactly(run, asked, switchCap, readyCap, irp, st.ioInit[irp].0);
    }
    forall stack ensures what == Found(stack) <==> exists ts: int :: AnsweredAt(run, asked, switchCap, readyCap, irp, ts, stack) {
      FoundExactly(run, asked, switchCap, readyCap, irp, stack);
    }
  }

  lemma FoundExactly(run: seq<Event>, asked: set<Kind>, switchCap: nat, readyCap: nat, irp: nat, stack: Stack)
    requires DiskInit in asked && irp != 0
    ensures Issued(Replay(run, asked, switchCap, readyCap), irp) == Found(stack)
      <==> exists ts: int :: AnsweredAt(run, asked, switchCap, readyCap, irp, ts, stack)
  {
    var st := Replay(run, asked, switchCap, readyCap);
    forall ts: int ensures HasStack(st, irp, ts, stack) <==> AnsweredAt(run, asked, switchCap, readyCap, irp, ts, stack) {
      StacksGivenExactly(run, asked, switchCap, readyCap, irp, ts, stack);
    }
    if Issued(st, irp) == Found(stack) {
      assert HasStack(st, irp, st.ioInit[irp].0, stack);
    }
  }

  /** Over every run nothing is answered that was not asked for, nor for a request without a packet. */
  lemma {:induction false} OnlyAskedAnswered(run: seq<Event>, asked: set<Kind>, switchCap: nat, readyCap: nat, q: SlowIo)
    requires q in Replay(run, asked, switchCap, readyCap).slowIo
    ensures DiskInit in asked && q.irp != 0
  {
    var init := run[..|run| - 1];
    RunAsked(init, asked, switchCap, readyCap);
    SlowIoStep(Replay(init, asked, switchCap, readyCap), run[|run| - 1], q);
    if q in Replay(init, asked, switchCap, readyCap).slowIo {
      OnlyAskedAnswered(init, asked, switchCap, readyCap, q);
    }
  }

  lemma SlowPushed(st: State, end: int, irp: nat, x: SlowIo)
    requires x in st.slowIo || StackAnswers.LostTo(st.lost.slowIo, x.end)
    ensures var next := OnDiskDone(st, end, irp, true);
      x in next.slowIo || StackAnswers.LostTo(next.lost.slowIo, x.end)
  {
    StackAnswers.QueueHolds(st.slowIo, SlowIo(end, irp, Issued(st, irp)), SLOW_IO_CAP, SlowEnd, st.lost.slowIo, x);
  }

  lemma {:induction false} OthersLeaveSlow(st: State, ev: Event)
    requires !ev.DoneEvent? && !ev.PruneEvent?
    ensures Apply(st, ev).slowIo == st.slowIo && Apply(st, ev).lost.slowIo == st.lost.slowIo
  {
    match ev
    case StackEvent(_, _) => StackFrame(st, ev);
    case _ =>
  }

  /** The event prunes completions of this time. */
  predicate CutsDone(ev: Event, end: int) { ev.PruneEvent? && end < ev.latest - ev.keep }

  lemma {:induction false} SlowKept(st: State, ev: Event, x: SlowIo)
    requires x in st.slowIo || StackAnswers.LostTo(st.lost.slowIo, x.end)
    ensures x in Apply(st, ev).slowIo || StackAnswers.LostTo(Apply(st, ev).lost.slowIo, x.end) || CutsDone(ev, x.end)
  {
    match ev
    case DoneEvent(end, irp, slow) =>
      if slow {
        SlowPushed(st, end, irp, x);
      }
    case PruneEvent(latest, keep, _) =>
      if x in st.slowIo && x.end >= latest - keep {
        StackAnswers.DropOlderHolds(st.slowIo, SlowEnd, latest - keep, x);
      }
    case _ => OthersLeaveSlow(st, ev);
  }

  /** Over every run an answer once given is kept until the queue's cap drops one as new, which is noted,
      or a prune cuts it. */
  lemma {:induction false} AnswersKept(run: seq<Event>, asked: set<Kind>, switchCap: nat, readyCap: nat, m: nat, x: SlowIo)
    requires m <= |run| && x in Replay(run[..m], asked, switchCap, readyCap).slowIo
    ensures var st := Replay(run, asked, switchCap, readyCap);
      || x in st.slowIo || StackAnswers.LostTo(st.lost.slowIo, x.end)
      || exists j :: m <= j < |run| && CutsDone(run[j], x.end)
  {
    if m == |run| {
      assert run[..m] == run;
    } else {
      var init := run[..|run| - 1];
      assert init[..m] == run[..m];
      AnswersKept(init, asked, switchCap, readyCap, m, x);
      if j :| m <= j < |init| && CutsDone(init[j], x.end) {
        assert run[j] == init[j];
      } else {
        SlowKept(Replay(init, asked, switchCap, readyCap), run[|run| - 1], x);
      }
    }
  }
}
