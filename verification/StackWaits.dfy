/** Whom the stack matcher takes to be waiting: exactly the threads switched off into a wait that have
    not been switched in since, as far back as it is kept. */
module StackWaits {
  import opened Trace
  import opened Stacks
  import opened StackRuns

  // ---- On the events ----------------------------------------------------------------------------

  /** The event takes `tid` off a processor into a wait, noted with its time and reason. */
  predicate OffInto(ev: Event, tid: nat, e: (int, int)) {
    && ev.SwitchEvent? && tid != 0 && ev.sw.oldTid == tid
    && ev.sw.oldState == STATE_WAITING && e == (ev.sw.ts, ev.sw.oldReason)
  }

  /** The event neither brings `tid` back nor starts another wait of it, nor prunes one begun at
      `since`. */
  predicate StillOff(ev: Event, tid: nat, since: int) {
    match ev
    case SwitchEvent(_, _, sw) => sw.newTid != tid && !(tid != 0 && sw.oldTid == tid && sw.oldState == STATE_WAITING)
    case PruneEvent(latest, _, switchKeep) => since >= latest - switchKeep
    case _ => true
  }

  ghost predicate NotedAt(run: seq<Event>, k: nat, tid: nat, e: (int, int)) {
    k < |run| && OffInto(run[k], tid, e) && forall j :: k < j < |run| ==> StillOff(run[j], tid, e.0)
  }

  ghost predicate Noted(run: seq<Event>, tid: nat, e: (int, int)) {
    exists k: nat :: NotedAt(run, k, tid, e)
  }

  lemma NotedNext(run: seq<Event>, ev: Event, tid: nat, e: (int, int))
    ensures Noted(run + [ev], tid, e) <==> OffInto(ev, tid, e) || (Noted(run, tid, e) && StillOff(ev, tid, e.0))
  {
    var next := run + [ev];
    if OffInto(ev, tid, e) {
      assert NotedAt(next, |run|, tid, e);
    }
    if k: nat :| NotedAt(run, k, tid, e) && StillOff(ev, tid, e.0) {
      assert NotedAt(next, k, tid, e);
    }
    if k: nat :| NotedAt(next, k, tid, e) && k < |run| {
      assert next[|run|] == ev && forall j :: 0 <= j < |run| ==> next[j] == run[j];
      assert NotedAt(run, k, tid, e);
    }
  }

  // ---- In the matcher ---------------------------------------------------------------------------

  /** Waits are noted when the stacks of switches or of wake-ups are asked for. */
  predicate NotesWaits(asked: set<Kind>) { CSwitch in asked || Readied in asked }

  predicate HasNoted(st: State, tid: nat, e: (int, int)) { tid in st.offAt && st.offAt[tid] == e }

  lemma {:induction false} NoteStep(st: State, ev: Event, tid: nat, e: (int, int))
    requires NotesWaits(st.asked)
    ensures HasNoted(Apply(st, ev), tid, e) <==> OffInto(ev, tid, e) || (HasNoted(st, tid, e) && StillOff(ev, tid, e.0))
  {
    match ev
    case StackEvent(_, _) => StackFrame(st, ev);
    case _ =>
  }

  lemma {:induction false} RunAsked(run: seq<Event>, asked: set<Kind>, switchCap: nat, readyCap: nat)
    ensures Replay(run, asked, switchCap, readyCap).asked == asked
  {
    if run != [] {
      RunAsked(run[..|run| - 1], asked, switchCap, readyCap);
      AskedKept(Replay(run[..|run| - 1], asked, switchCap, readyCap), run[|run| - 1]);
    }
  }

  lemma {:induction false} UnaskedStep(st: State, ev: Event)
    requires !NotesWaits(st.asked) && st.offAt == map[]
    ensures Apply(st, ev).offAt == map[]
  {
    match ev
    case StackEvent(_, _) => StackFrame(st, ev);
    case _ =>
  }

  /** Over every run, a thread is noted as waiting since a time and for a reason exactly when the stacks
      of switches or of wake-ups are asked for and it was switched off into that wait, has not been
      switched in or off into another since, and no prune has cut it. */
  lemma {:induction false} WaitsNotedExactly(run: seq<Event>, asked: set<Kind>, switchCap: nat, readyCap: nat, tid: nat, e: (int, int))
    ensures HasNoted(Replay(run, asked, switchCap, readyCap), tid, e) <==> NotesWaits(asked) && Noted(run, tid, e)
    ensures !NotesWaits(asked) ==> Replay(run, asked, switchCap, readyCap).offAt == map[]
  {
    if run != [] {
      var init, ev := run[..|run| - 1], run[|run| - 1];
      WaitsNotedExactly(init, asked, switchCap, readyCap, tid, e);
      RunAsked(init, asked, switchCap, readyCap);
      if NotesWaits(asked) {
        NoteStep(Replay(init, asked, switchCap, readyCap), ev, tid, e);
        NotedNext(init, ev, tid, e);
        assert run == init + [ev];
      } else {
        UnaskedStep(Replay(init, asked, switchCap, readyCap), ev);
      }
    }
  }

  // ---- On the switches alone --------------------------------------------------------------------

  function SwitchesIn(run: seq<Event>): seq<SwitchRec> {
    if run == [] then []
    else if run[|run| - 1].SwitchEvent? then SwitchesIn(run[..|run| - 1]) + [run[|run| - 1].sw]
    else SwitchesIn(run[..|run| - 1])
  }

  /** Switch `k` took `tid` off a processor into a wait at `since`. */
  predicate OffAt(sws: seq<SwitchRec>, k: nat, tid: nat, since: int) {
    k < |sws| && sws[k].oldTid == tid && sws[k].oldState == STATE_WAITING && sws[k].ts == since
  }

  predicate NotBack(sws: seq<SwitchRec>, k: nat, m: nat, tid: nat) {
    forall j :: k < j < m && j < |sws| ==> sws[j].newTid != tid
  }

  /** Still in the wait noted as `e`. */
  ghost predicate Waiting(sws: seq<SwitchRec>, tid: nat, e: (int, int)) {
    exists k: nat :: OffAt(sws, k, tid, e.0) && sws[k].oldReason == e.1 && NotBack(sws, k, |sws|, tid)
  }

  lemma WaitingGrows(sws: seq<SwitchRec>, sw: SwitchRec, tid: nat, e: (int, int))
    requires Waiting(sws, tid, e) && sw.newTid != tid
    ensures Waiting(sws + [sw], tid, e)
  {
    var k: nat :| OffAt(sws, k, tid, e.0) && sws[k].oldReason == e.1 && NotBack(sws, k, |sws|, tid);
    var next := sws + [sw];
    assert OffAt(next, k, tid, e.0) && NotBack(next, k, |next|, tid);
  }

  lemma {:induction false} NotedIsWaiting(run: seq<Event>, tid: nat, e: (int, int))
    requires Noted(run, tid, e)
    ensures Waiting(SwitchesIn(run), tid, e)
  {
    var init, ev := run[..|run| - 1], run[|run| - 1];
    assert run == init + [ev];
    NotedNext(init, ev, tid, e);
    if OffInto(ev, tid, e) {
      var sws := SwitchesIn(run);
      assert OffAt(sws, |sws| - 1, tid, e.0) && NotBack(sws, |sws| - 1, |sws|, tid);
    } else {
      NotedIsWaiting(init, tid, e);
      if ev.SwitchEvent? {
        WaitingGrows(SwitchesIn(init), ev.sw, tid, e);
      }
    }
  }

  ghost predicate WaitsTracked(sws: seq<SwitchRec>, st: State) {
    NotesWaits(st.asked) ==> forall tid :: tid in st.offAt ==> Waiting(sws, tid, st.offAt[tid])
  }

  /** Over every run, whoever is noted as waiting was switched off into a wait at the time noted and
      has not been switched in since. */
  lemma RunTracksWaits(run: seq<Event>, asked: set<Kind>, switchCap: nat, readyCap: nat)
    ensures WaitsTracked(SwitchesIn(run), Replay(run, asked, switchCap, readyCap))
  {
    var st := Replay(run, asked, switchCap, readyCap);
    RunAsked(run, asked, switchCap, readyCap);
    forall tid | tid in st.offAt && NotesWaits(asked) ensures Waiting(SwitchesIn(run), tid, st.offAt[tid]) {
      WaitsNotedExactly(run, asked, switchCap, readyCap, tid, st.offAt[tid]);
      NotedIsWaiting(run, tid, st.offAt[tid]);
    }
  }
}
