/** The bounded history: two count-capped, time-pruned scheduler rings and the request ring,
    and when what is left in them can stand in for everything that was ever delivered. */
module Rings {
  import opened Trace
  import opened Seqs

  /** Floors of the two count caps. */
  const SWITCH_CAP: nat := 300_000
  const READY_CAP: nat := 300_000

  datatype State = State(
    latest: int, lastPrune: int,
    switches: seq<SwitchRec>, readies: seq<ReadyRec>, ios: seq<IoRec>,
    switchEvents: nat, readyEvents: nat,
    overflowed: bool, lost: Option<int>, switchCap: nat, readyCap: nat)

  function Fresh(switchCap: nat, readyCap: nat): State {
    State(0, 0, [], [], [], 0, 0, false, None, switchCap, readyCap)
  }

  // ---- What each operation does to the state ----------------------------------------------------

  function AfterSwitch(st: State, r: SwitchRec): State {
    var full := st.switches + [r];
    var st := st.(switchEvents := st.switchEvents + 1);
    if |full| > Max(st.switchCap, SWITCH_CAP) then
      st.(switches := full[1..], lost := LaterOf(st.lost, full[0].ts), overflowed := true)
    else st.(switches := full)
  }

  function AfterReady(st: State, r: ReadyRec): State {
    var full := st.readies + [r];
    var st := st.(readyEvents := st.readyEvents + 1);
    if |full| > Max(st.readyCap, READY_CAP) then
      st.(readies := full[1..], lost := LaterOf(st.lost, full[0].ts), overflowed := true)
    else st.(readies := full)
  }

  function AfterPrune(st: State, keep: int): State {
    var cutoff := st.latest - SWITCH_KEEP;
    st.(switches := DropOlder(st.switches, SwitchTs, cutoff),
        readies := DropOlder(st.readies, ReadyTs, cutoff),
        ios := DropOlder(st.ios, IoEnd, st.latest - keep),
        lastPrune := st.latest)
  }

  /** The rings' own claim to hold everything since `from`. It looks at the front of the switch ring
      only. */
  predicate Covers(st: State, from: int) {
    && (st.lost.Some? ==> st.lost.value < from)
    && st.switches != [] && st.switches[0].ts <= from
    && st.readies != []
  }

  function OffIn(tids: set<nat>, from: int, to: int): SwitchRec -> bool {
    (s: SwitchRec) => from <= s.ts <= to && s.oldTid in tids
  }

  function OffOne(tids: set<nat>): SwitchRec -> bool { (s: SwitchRec) => s.oldTid in tids }

  function Tids(rd: seq<ReadyRec>): set<nat> {
    set r | r in rd :: r.tid
  }

  /** The records a slow request `[start, end]` is examined on: linear filters of the rings. */
  function RecordsBehind(st: State, start: int, end: int, before: int, after: int): Option<(seq<SwitchRec>, seq<ReadyRec>)> {
    if !Covers(st, start) || st.latest < end + after then None
    else
      var rd := Filter(st.readies, Within(ReadyTs, end - before, end + after));
      Some((Filter(st.switches, OffIn(Tids(rd), start, end + after)), rd))
  }

  // ---- Whole runs -------------------------------------------------------------------------------

  /** One thing that happens to the rings. `Caught(ts)` is the trace catching up to `ts`. */
  datatype Step =
    | Switch(s: SwitchRec)
    | Ready(r: ReadyRec)
    | Request(i: IoRec)
    | Caught(ts: int)
    | Pruned(keep: int)
  {
    function Stamp(): Option<int> {
      match this
      case Switch(s) => Some(s.ts)
      case Ready(r) => Some(r.ts)
      case Request(i) => Some(i.end)
      case Caught(ts) => Some(ts)
      case Pruned(_) => None
    }
  }

  function Apply(st: State, step: Step): State {
    match step
    case Switch(s) => AfterSwitch(st, s)
    case Ready(r) => AfterReady(st, r)
    case Request(i) => st.(ios := st.ios + [i])
    case Caught(ts) => st.(latest := Max(st.latest, ts))
    case Pruned(keep) => AfterPrune(st, keep)
  }

  function Replay(run: seq<Step>, switchCap: nat, readyCap: nat): State {
    if run == [] then Fresh(switchCap, readyCap)
    else Apply(Replay(run[..|run| - 1], switchCap, readyCap), run[|run| - 1])
  }

  /** The newest stamp delivered; the counter starts at 0. */
  function Newest(run: seq<Step>): int {
    if run == [] then 0
    else
      var stamp := run[|run| - 1].Stamp();
      if stamp.Some? then stamp.value else Newest(run[..|run| - 1])
  }

  /** Delivery in time order, which is what the environment is trusted for. */
  predicate InOrder(run: seq<Step>) {
    run == [] ||
    (var init := run[..|run| - 1];
     var stamp := run[|run| - 1].Stamp();
     InOrder(init) && (stamp.Some? ==> Newest(init) <= stamp.value))
  }

  /** Everything ever delivered, of each kind. */
  function Switches(run: seq<Step>): seq<SwitchRec> {
    if run == [] then []
    else
      match run[|run| - 1]
      case Switch(s) => Switches(run[..|run| - 1]) + [s]
      case _ => Switches(run[..|run| - 1])
  }

  function Readies(run: seq<Step>): seq<ReadyRec> {
    if run == [] then []
    else
      match run[|run| - 1]
      case Ready(r) => Readies(run[..|run| - 1]) + [r]
      case _ => Readies(run[..|run| - 1])
  }

  function Requests(run: seq<Step>): seq<IoRec> {
    if run == [] then []
    else
      match run[|run| - 1]
      case Request(i) => Requests(run[..|run| - 1]) + [i]
      case _ => Requests(run[..|run| - 1])
  }

  /** The scheduler rings' last cutoff. */
  function Horizon(run: seq<Step>, switchCap: nat, readyCap: nat): Option<int> {
    if run == [] then None
    else
      var init := run[..|run| - 1];
      if run[|run| - 1].Pruned? then Some(Replay(init, switchCap, readyCap).latest - SWITCH_KEEP)
      else Horizon(init, switchCap, readyCap)
  }

  /** Every pruning keeps the long rings at least as long as the scheduler rings (the tool's own
      figures are 20 s and 6 s). */
  predicate LongKept(run: seq<Step>) {
    forall i :: 0 <= i < |run| && run[i].Pruned? ==> run[i].keep >= SWITCH_KEEP
  }

  // ---- What a ring still holds ------------------------------------------------------------------

  /** Lost to the cap, or older than the horizon. */
  ghost predicate Gone(stamp: int, lost: Option<int>, horizon: Option<int>) {
    || (lost.Some? && stamp <= lost.value)
    || (horizon.Some? && stamp < horizon.value)
  }

  /** `ring` is the tail of `all`, and what it lacks is gone for a reason on record. */
  ghost predicate Tail<T(!new)>(ring: seq<T>, all: seq<T>, ts: T -> int, lost: Option<int>, horizon: Option<int>) {
    && |ring| <= |all|
    && ring == all[|all| - |ring|..]
    && TimeOrdered(all, ts)
    && forall i :: 0 <= i < |all| - |ring| ==> Gone(ts(all[i]), lost, horizon)
  }

  ghost predicate NotBefore<T(!new)>(ring: seq<T>, ts: T -> int, horizon: Option<int>) {
    horizon.Some? ==> forall x :: x in ring ==> horizon.value <= ts(x)
  }

  ghost predicate UpTo<T(!new)>(all: seq<T>, ts: T -> int, newest: int) {
    forall x :: x in all ==> ts(x) <= newest
  }

  lemma TailPush<T(!new)>(ring: seq<T>, all: seq<T>, ts: T -> int, lost: Option<int>, horizon: Option<int>, x: T)
    requires Tail(ring, all, ts, lost, horizon) && UpTo(all, ts, ts(x))
    ensures Tail(ring + [x], all + [x], ts, lost, horizon)
  {
    var n := |all| - |ring|;
    assert (all + [x])[n..] == all[n..] + [x];
    forall i, j | 0 <= i < j < |all + [x]| ensures ts((all + [x])[i]) <= ts((all + [x])[j]) {
      assert all != [];
      if j == |all| { assert all[i] in all; }
    }
  }

  /** Losing the front to the cap: noted in `lost`, so nothing is lost silently. */
  lemma TailCap<T(!new)>(ring: seq<T>, all: seq<T>, ts: T -> int, lost: Option<int>, horizon: Option<int>)
    requires Tail(ring, all, ts, lost, horizon) && ring != []
    ensures Tail(ring[1..], all, ts, LaterOf(lost, ts(ring[0])), horizon)
  {
    var n := |all| - |ring|;
    assert all[n] == ring[0];
    assert ring[1..] == all[n + 1..];
  }

  lemma TailWeaken<T(!new)>(ring: seq<T>, all: seq<T>, ts: T -> int, lost: Option<int>, horizon: Option<int>, lost': Option<int>)
    requires Tail(ring, all, ts, lost, horizon)
    requires lost.Some? ==> lost'.Some? && lost.value <= lost'.value
    ensures Tail(ring, all, ts, lost', horizon)
  {}

  lemma TailOrdered<T(!new)>(ring: seq<T>, all: seq<T>, ts: T -> int, lost: Option<int>, horizon: Option<int>)
    requires Tail(ring, all, ts, lost, horizon)
    ensures TimeOrdered(ring, ts)
  {
    var n := |all| - |ring|;
    assert forall i :: 0 <= i < |ring| ==> ring[i] == all[n + i];
  }

  /** Moving the horizon up keeps the ring a tail. */
  lemma TailLater<T(!new)>(ring: seq<T>, all: seq<T>, ts: T -> int, lost: Option<int>, horizon: Option<int>, cutoff: int)
    requires Tail(ring, all, ts, lost, horizon) && (horizon.Some? ==> horizon.value <= cutoff)
    ensures Tail(ring, all, ts, lost, Some(cutoff))
  {}

  lemma PopTail<T(!new)>(ring: seq<T>, all: seq<T>, ts: T -> int, lost: Option<int>, cutoff: int)
    requires Tail(ring, all, ts, lost, Some(cutoff)) && ring != [] && ts(ring[0]) < cutoff
    ensures Tail(ring[1..], all, ts, lost, Some(cutoff))
  {
    var n := |all| - |ring|;
    assert all[n] == ring[0];
    assert ring[1..] == all[n + 1..];
  }

  lemma {:induction false} DropOlderTail<T(!new)>(ring: seq<T>, all: seq<T>, ts: T -> int, lost: Option<int>, cutoff: int)
    requires Tail(ring, all, ts, lost, Some(cutoff))
    ensures Tail(DropOlder(ring, ts, cutoff), all, ts, lost, Some(cutoff))
    ensures NotBefore(DropOlder(ring, ts, cutoff), ts, Some(cutoff))
    decreases |ring|
  {
    if ring == [] {
    } else if ts(ring[0]) < cutoff {
      PopTail(ring, all, ts, lost, cutoff);
      DropOlderTail(ring[1..], all, ts, lost, cutoff);
    } else {
      TailOrdered(ring, all, ts, lost, Some(cutoff));
      OrderedFrom(ring, ts, cutoff);
    }
  }

  lemma OrderedFrom<T(!new)>(ring: seq<T>, ts: T -> int, cutoff: int)
    requires TimeOrdered(ring, ts) && ring != [] && cutoff <= ts(ring[0])
    ensures NotBefore(ring, ts, Some(cutoff))
  {}

  // ---- The invariant of every run ---------------------------------------------------------------

  /** Everything delivered of each kind, the newest stamp, and the last cutoff. */
  datatype Past = Past(newest: int, horizon: Option<int>, switches: seq<SwitchRec>, readies: seq<ReadyRec>, ios: seq<IoRec>)

  function PastOf(run: seq<Step>, switchCap: nat, readyCap: nat): Past {
    Past(Newest(run), Horizon(run, switchCap, readyCap), Switches(run), Readies(run), Requests(run))
  }

  ghost predicate Kept(st: State, past: Past, longKept: bool) {
    && st.latest <= past.newest
    && (past.horizon.Some? ==> past.horizon.value <= st.latest - SWITCH_KEEP)
    && UpTo(past.switches, SwitchTs, past.newest)
    && UpTo(past.readies, ReadyTs, past.newest)
    && UpTo(past.ios, IoEnd, past.newest)
    && Tail(st.switches, past.switches, SwitchTs, st.lost, past.horizon)
    && Tail(st.readies, past.readies, ReadyTs, st.lost, past.horizon)
    && NotBefore(st.switches, SwitchTs, past.horizon)
    && (longKept ==> Tail(st.ios, past.ios, IoEnd, None, past.horizon))
  }

  /** Every run delivered in order keeps the invariant, whatever is pushed and pruned when. */
  lemma {:induction false} RunKeeps(run: seq<Step>, switchCap: nat, readyCap: nat)
    requires InOrder(run)
    ensures Kept(Replay(run, switchCap, readyCap), PastOf(run, switchCap, readyCap), LongKept(run))
  {
    if run != [] {
      var init, step := run[..|run| - 1], run[|run| - 1];
      RunKeeps(init, switchCap, readyCap);
      assert LongKept(run) ==> LongKept(init) && (step.Pruned? ==> step.keep >= SWITCH_KEEP) by {
        assert forall i :: 0 <= i < |init| ==> init[i] == run[i];
      }
      var st, past := Replay(init, switchCap, readyCap), PastOf(init, switchCap, readyCap);
      KeptStep(st, past, LongKept(init), step);
      assert PastOf(run, switchCap, readyCap) == PastAfter(st, past, step);
    }
  }

  lemma KeptFacts(st: State, past: Past, longKept: bool)
    requires Kept(st, past, longKept)
    ensures TimeOrdered(past.switches, SwitchTs) && TimeOrdered(past.readies, ReadyTs) && st.latest <= past.newest
    ensures UpTo(past.switches, SwitchTs, past.newest) && UpTo(past.readies, ReadyTs, past.newest)
  {}

  /** What was delivered in order is in order, and no ring is ahead of it. */
  lemma RunOrdered(run: seq<Step>, switchCap: nat, readyCap: nat)
    requires InOrder(run)
    ensures TimeOrdered(Switches(run), SwitchTs) && TimeOrdered(Readies(run), ReadyTs)
    ensures Replay(run, switchCap, readyCap).latest <= Newest(run)
    ensures UpTo(Switches(run), SwitchTs, Newest(run)) && UpTo(Readies(run), ReadyTs, Newest(run))
  {
    RunKeeps(run, switchCap, readyCap);
    KeptFacts(Replay(run, switchCap, readyCap), PastOf(run, switchCap, readyCap), LongKept(run));
  }

  lemma KeptRings(st: State, past: Past, longKept: bool)
    requires Kept(st, past, longKept)
    ensures TimeOrdered(st.switches, SwitchTs) && TimeOrdered(st.readies, ReadyTs)
  {
    TailOrdered(st.switches, past.switches, SwitchTs, st.lost, past.horizon);
    TailOrdered(st.readies, past.readies, ReadyTs, st.lost, past.horizon);
  }

  lemma RingsOrdered(run: seq<Step>, switchCap: nat, readyCap: nat)
    requires InOrder(run)
    ensures TimeOrdered(Replay(run, switchCap, readyCap).switches, SwitchTs)
    ensures TimeOrdered(Replay(run, switchCap, readyCap).readies, ReadyTs)
  {
    RunKeeps(run, switchCap, readyCap);
    KeptRings(Replay(run, switchCap, readyCap), PastOf(run, switchCap, readyCap), LongKept(run));
  }

  function PastAfter(st: State, past: Past, step: Step): Past {
    match step
    case Switch(s) => past.(newest := s.ts, switches := past.switches + [s])
    case Ready(r) => past.(newest := r.ts, readies := past.readies + [r])
    case Request(i) => past.(newest := i.end, ios := past.ios + [i])
    case Caught(ts) => past.(newest := ts)
    case Pruned(_) => past.(horizon := Some(st.latest - SWITCH_KEEP))
  }

  lemma {:induction false} KeptStep(st: State, past: Past, longKept: bool, step: Step)
    requires Kept(st, past, longKept) && (step.Stamp().Some? ==> past.newest <= step.Stamp().value)
    ensures Kept(Apply(st, step), PastAfter(st, past, step), longKept && (step.Pruned? ==> step.keep >= SWITCH_KEEP))
  {
    match step
    case Switch(s) => KeptSwitch(st, past, longKept, s);
    case Ready(r) => KeptReady(st, past, longKept, r);
    case Request(i) => if longKept { TailPush(st.ios, past.ios, IoEnd, None, past.horizon, i); }
    case Caught(_) =>
    case Pruned(keep) => KeptPruned(st, past, longKept, keep);
  }

  /** A push that may cost the ring its oldest record, and what is noted of it. */
  lemma TailPushCapped<T(!new)>(ring: seq<T>, all: seq<T>, ts: T -> int, lost: Option<int>, horizon: Option<int>, x: T, cap: nat)
    requires Tail(ring, all, ts, lost, horizon) && UpTo(all, ts, ts(x))
    ensures var full := ring + [x];
      if |full| > cap then Tail(full[1..], all + [x], ts, LaterOf(lost, ts(full[0])), horizon)
      else Tail(full, all + [x], ts, lost, horizon)
  {
    TailPush(ring, all, ts, lost, horizon, x);
    if |ring + [x]| > cap {
      TailCap(ring + [x], all + [x], ts, lost, horizon);
    }
  }

  lemma NotBeforePush<T(!new)>(ring: seq<T>, ts: T -> int, horizon: Option<int>, x: T, cap: nat)
    requires NotBefore(ring, ts, horizon) && (horizon.Some? ==> horizon.value <= ts(x))
    ensures NotBefore(if |ring + [x]| > cap then (ring + [x])[1..] else ring + [x], ts, horizon)
  {}

  lemma UpToPush<T(!new)>(all: seq<T>, ts: T -> int, newest: int, x: T)
    requires UpTo(all, ts, newest) && newest <= ts(x)
    ensures UpTo(all, ts, ts(x)) && UpTo(all + [x], ts, ts(x))
  {}

  lemma UpToLater<T(!new)>(all: seq<T>, ts: T -> int, newest: int, later: int)
    requires UpTo(all, ts, newest) && newest <= later
    ensures UpTo(all, ts, later)
  {}

  lemma KeptSwitch(st: State, past: Past, longKept: bool, s: SwitchRec)
    requires Kept(st, past, longKept) && past.newest <= s.ts
    ensures Kept(AfterSwitch(st, s), PastAfter(st, past, Switch(s)), longKept)
  {
    var cap, next := Max(st.switchCap, SWITCH_CAP), AfterSwitch(st, s);
    UpToPush(past.switches, SwitchTs, past.newest, s);
    UpToLater(past.readies, ReadyTs, past.newest, s.ts);
    UpToLater(past.ios, IoEnd, past.newest, s.ts);
    NotBeforePush(st.switches, SwitchTs, past.horizon, s, cap);
    TailPushCapped(st.switches, past.switches, SwitchTs, st.lost, past.horizon, s, cap);
    TailWeaken(st.readies, past.readies, ReadyTs, st.lost, past.horizon, next.lost);
  }

  lemma KeptReady(st: State, past: Past, longKept: bool, r: ReadyRec)
    requires Kept(st, past, longKept) && past.newest <= r.ts
    ensures Kept(AfterReady(st, r), PastAfter(st, past, Ready(r)), longKept)
  {
    var cap, next := Max(st.readyCap, READY_CAP), AfterReady(st, r);
    UpToPush(past.readies, ReadyTs, past.newest, r);
    UpToLater(past.switches, SwitchTs, past.newest, r.ts);
    UpToLater(past.ios, IoEnd, past.newest, r.ts);
    TailPushCapped(st.readies, past.readies, ReadyTs, st.lost, past.horizon, r, cap);
    TailWeaken(st.switches, past.switches, SwitchTs, st.lost, past.horizon, next.lost);
  }

  lemma PrunedTail<T(!new)>(ring: seq<T>, all: seq<T>, ts: T -> int, lost: Option<int>, horizon: Option<int>, cutoff: int)
    requires Tail(ring, all, ts, lost, horizon) && (horizon.Some? ==> horizon.value <= cutoff)
    ensures Tail(DropOlder(ring, ts, cutoff), all, ts, lost, Some(cutoff))
    ensures NotBefore(DropOlder(ring, ts, cutoff), ts, Some(cutoff))
  {
    TailLater(ring, all, ts, lost, horizon, cutoff);
    DropOlderTail(ring, all, ts, lost, cutoff);
  }

  lemma {:induction false} KeptPruned(st: State, past: Past, longKept: bool, keep: int)
    requires Kept(st, past, longKept)
    ensures Kept(AfterPrune(st, keep), PastAfter(st, past, Pruned(keep)), longKept && keep >= SWITCH_KEEP)
  {
    var cutoff := st.latest - SWITCH_KEEP;
    PrunedTail(st.switches, past.switches, SwitchTs, st.lost, past.horizon, cutoff);
    PrunedTail(st.readies, past.readies, ReadyTs, st.lost, past.horizon, cutoff);
    if longKept && keep >= SWITCH_KEEP {
      IosPruned(st.ios, past.ios, past.horizon, st.latest - keep, cutoff);
    }
    Assemble(AfterPrune(st, keep), past.(horizon := Some(cutoff)), longKept && keep >= SWITCH_KEEP);
  }

  /** The invariant, put together from its parts. */
  lemma {:induction false} Assemble(st: State, past: Past, longKept: bool)
    requires st.latest <= past.newest && (past.horizon.Some? ==> past.horizon.value <= st.latest - SWITCH_KEEP)
    requires UpTo(past.switches, SwitchTs, past.newest) && UpTo(past.readies, ReadyTs, past.newest) && UpTo(past.ios, IoEnd, past.newest)
    requires Tail(st.switches, past.switches, SwitchTs, st.lost, past.horizon)
    requires Tail(st.readies, past.readies, ReadyTs, st.lost, past.horizon)
    requires NotBefore(st.switches, SwitchTs, past.horizon)
    requires longKept ==> Tail(st.ios, past.ios, IoEnd, None, past.horizon)
    ensures Kept(st, past, longKept)
  {}

  /** Pruning the requests at an older cutoff loses nothing newer than the scheduler rings' one. */
  lemma {:induction false} IosPruned(ring: seq<IoRec>, all: seq<IoRec>, horizon: Option<int>, cut: int, cutoff: int)
    requires Tail(ring, all, IoEnd, None, horizon) && cut <= cutoff
    requires horizon.Some? ==> horizon.value <= cutoff
    ensures Tail(DropOlder(ring, IoEnd, cut), all, IoEnd, None, Some(cutoff))
    decreases |ring|
  {
    if ring != [] && ring[0].end < cut {
      var n := |all| - |ring|;
      assert all[n] == ring[0];
      assert ring[1..] == all[n + 1..];
      assert Tail(ring[1..], all, IoEnd, None, Some(cutoff));
      IosPruned(ring[1..], all, Some(cutoff), cut, cutoff);
    }
  }

  // ---- Coverage ---------------------------------------------------------------------------------

  function From<T>(ts: T -> int, from: int): T -> bool {
    x => from <= ts(x)
  }

  lemma TailCovers<T(!new)>(ring: seq<T>, all: seq<T>, ts: T -> int, lost: Option<int>, horizon: Option<int>, from: int)
    requires Tail(ring, all, ts, lost, horizon)
    requires lost.Some? ==> lost.value < from
    requires horizon.Some? ==> horizon.value <= from
    ensures Filter(ring, From(ts, from)) == Filter(all, From(ts, from))
  {
    var n := |all| - |ring|;
    forall i | 0 <= i < n ensures !From(ts, from)(all[i]) {
      assert Gone(ts(all[i]), lost, horizon);
    }
    FilterSlice(all, From(ts, from), n, |all|);
    assert all[n..|all|] == ring;
  }

  /** Coverage is sound over every run: whenever the rings claim to reach back to `from`, they
      hold every switch AND every wake-up ever delivered from then on, same records in the same
      order - although no wake-up's time is ever looked at. The requests are whole from `from` on
      too, when every pruning keeps them as long. */
  lemma CoverageIsSound(run: seq<Step>, switchCap: nat, readyCap: nat, from: int)
    requires InOrder(run) && Covers(Replay(run, switchCap, readyCap), from)
    ensures var st := Replay(run, switchCap, readyCap);
      && Filter(st.switches, From(SwitchTs, from)) == Filter(Switches(run), From(SwitchTs, from))
      && Filter(st.readies, From(ReadyTs, from)) == Filter(Readies(run), From(ReadyTs, from))
      && (LongKept(run) ==> Filter(st.ios, From(IoEnd, from)) == Filter(Requests(run), From(IoEnd, from)))
  {
    RunKeeps(run, switchCap, readyCap);
    var st, horizon := Replay(run, switchCap, readyCap), Horizon(run, switchCap, readyCap);
    assert st.switches[0] in st.switches;
    TailCovers(st.switches, Switches(run), SwitchTs, st.lost, horizon, from);
    TailCovers(st.readies, Readies(run), ReadyTs, st.lost, horizon, from);
    if LongKept(run) {
      TailCovers(st.ios, Requests(run), IoEnd, None, horizon, from);
    }
  }

  // ---- What the caps dropped --------------------------------------------------------------------

  /** The stamps of what each push so far found in its ring, or brought, and did not leave there. */
  function Dropped(run: seq<Step>, switchCap: nat, readyCap: nat): seq<int> {
    if run == [] then []
    else
      var init, step := run[..|run| - 1], run[|run| - 1];
      Dropped(init, switchCap, readyCap) + ShedBy(Replay(init, switchCap, readyCap), step, Replay(run, switchCap, readyCap))
  }

  function ShedBy(was: State, step: Step, now: State): seq<int> {
    match step
    case Switch(s) => Shed(was.switches + [s], |now.switches|, SwitchTs)
    case Ready(r) => Shed(was.readies + [r], |now.readies|, ReadyTs)
    case _ => []
  }

  function Shed<T>(full: seq<T>, left: nat, ts: T -> int): seq<int> {
    if left <= |full| then Stamps(full[..|full| - left], ts) else []
  }

  lemma ShedStep(st: State, step: Step, stamps: seq<int>)
    requires IsNewest(st.lost, stamps)
    ensures IsNewest(Apply(st, step).lost, stamps + ShedBy(st, step, Apply(st, step)))
  {
    match step
    case Switch(s) => ShedOne(st.switches + [s], Apply(st, step).switches, SwitchTs, st.lost, stamps);
    case Ready(r) => ShedOne(st.readies + [r], Apply(st, step).readies, ReadyTs, st.lost, stamps);
    case _ => assert stamps + [] == stamps;
  }

  lemma ShedOne<T(!new)>(full: seq<T>, left: seq<T>, ts: T -> int, lost: Option<int>, stamps: seq<int>)
    requires full != [] && (left == full || left == full[1..]) && IsNewest(lost, stamps)
    ensures IsNewest(if left == full then lost else LaterOf(lost, ts(full[0])), stamps + Shed(full, |left|, ts))
  {
    if |left| == |full| {
      assert stamps + Shed(full, |left|, ts) == stamps;
    } else {
      assert Shed(full, |left|, ts) == [ts(full[0])];
      NewestNext(lost, stamps, ts(full[0]));
    }
  }

  /** Over every run the time noted as lost is the newest of all the caps dropped. */
  lemma {:induction false} LostIsNewestDropped(run: seq<Step>, switchCap: nat, readyCap: nat)
    ensures IsNewest(Replay(run, switchCap, readyCap).lost, Dropped(run, switchCap, readyCap))
  {
    if run != [] {
      var init := run[..|run| - 1];
      LostIsNewestDropped(init, switchCap, readyCap);
      ShedStep(Replay(init, switchCap, readyCap), run[|run| - 1], Dropped(init, switchCap, readyCap));
    }
  }

  /** The latest time the trace has been seen to reach, counting from 0. */
  ghost predicate IsLatest(run: seq<Step>, latest: int) {
    && 0 <= latest && (latest == 0 || Caught(latest) in run)
    && forall ts :: Caught(ts) in run ==> ts <= latest
  }

  lemma LatestStep(init: seq<Step>, step: Step, latest: int)
    requires IsLatest(init, latest)
    ensures IsLatest(init + [step], if step.Caught? then Max(latest, step.ts) else latest)
  {
    var run := init + [step];
    assert forall s :: s in run <==> s in init || s == step;
  }

  /** The trace's latest time when the rings were last pruned, or 0. */
  function PrunedAt(run: seq<Step>, switchCap: nat, readyCap: nat): int {
    if run == [] then 0
    else
      var init := run[..|run| - 1];
      if run[|run| - 1].Pruned? then Replay(init, switchCap, readyCap).latest else PrunedAt(init, switchCap, readyCap)
  }

  ghost predicate Counted(st: State, switches: nat, readies: nat, dropped: seq<int>) {
    && st.switchEvents == switches && st.readyEvents == readies && (st.overflowed <==> dropped != [])
  }

  lemma CountedStep(st: State, step: Step, switches: nat, readies: nat, dropped: seq<int>)
    requires Counted(st, switches, readies, dropped)
    ensures Counted(Apply(st, step), switches + (if step.Switch? then 1 else 0), readies + (if step.Ready? then 1 else 0),
                    dropped + ShedBy(st, step, Apply(st, step)))
  {}

  lemma {:induction false} RunCounted(run: seq<Step>, switchCap: nat, readyCap: nat)
    ensures Counted(Replay(run, switchCap, readyCap), |Switches(run)|, |Readies(run)|, Dropped(run, switchCap, readyCap))
  {
    if run != [] {
      var init := run[..|run| - 1];
      RunCounted(init, switchCap, readyCap);
      CountedStep(Replay(init, switchCap, readyCap), run[|run| - 1], |Switches(init)|, |Readies(init)|,
                  Dropped(init, switchCap, readyCap));
    }
  }

  lemma {:induction false} RunLatest(run: seq<Step>, switchCap: nat, readyCap: nat)
    ensures IsLatest(run, Replay(run, switchCap, readyCap).latest)
    ensures Replay(run, switchCap, readyCap).lastPrune == PrunedAt(run, switchCap, readyCap)
  {
    if run != [] {
      var init, step := run[..|run| - 1], run[|run| - 1];
      assert run == init + [step];
      RunLatest(init, switchCap, readyCap);
      LatestStep(init, step, Replay(init, switchCap, readyCap).latest);
    }
  }

  /** Over every run the counters tell what was delivered, the overflow flag whether a cap has ever dropped
      a record, and `latest` how far the trace has been seen to reach. */
  lemma CountersExactly(run: seq<Step>, switchCap: nat, readyCap: nat)
    ensures var st := Replay(run, switchCap, readyCap);
      && st.switchEvents == |Switches(run)| && st.readyEvents == |Readies(run)|
      && (st.overflowed <==> Dropped(run, switchCap, readyCap) != [])
      && IsLatest(run, st.latest) && st.lastPrune == PrunedAt(run, switchCap, readyCap)
  {
    RunCounted(run, switchCap, readyCap);
    RunLatest(run, switchCap, readyCap);
  }

  ghost predicate Capped(st: State, switchCap: nat, readyCap: nat) {
    && st.switchCap == switchCap && st.readyCap == readyCap
    && |st.switches| <= Max(switchCap, 300_000) && |st.readies| <= Max(readyCap, 300_000)
  }

  lemma {:induction false} DropOlderShorter<T>(s: seq<T>, ts: T -> int, cutoff: int)
    ensures |DropOlder(s, ts, cutoff)| <= |s|
  {
    if s != [] && ts(s[0]) < cutoff {
      DropOlderShorter(s[1..], ts, cutoff);
    }
  }

  lemma CappedStep(st: State, step: Step, switchCap: nat, readyCap: nat)
    requires Capped(st, switchCap, readyCap)
    ensures Capped(Apply(st, step), switchCap, readyCap)
    ensures ShedBy(st, step, Apply(st, step)) != [] ==>
      if step.Switch? then |st.switches| == Max(switchCap, 300_000) else |st.readies| == Max(readyCap, 300_000)
  {
    DropOlderShorter(st.switches, SwitchTs, st.latest - SWITCH_KEEP);
    DropOlderShorter(st.readies, ReadyTs, st.latest - SWITCH_KEEP);
  }

  /** Over every run no ring holds more than its cap, and a push drops something only from one that is
      full. */
  lemma {:induction false} DropsOnlyWhenFull(run: seq<Step>, switchCap: nat, readyCap: nat, step: Step)
    ensures var st := Replay(run, switchCap, readyCap);
      && |st.switches| <= Max(switchCap, 300_000) && |st.readies| <= Max(readyCap, 300_000)
      && (ShedBy(st, step, Apply(st, step)) != [] ==>
            if step.Switch? then |st.switches| == Max(switchCap, 300_000) else |st.readies| == Max(readyCap, 300_000))
  {
    RunCapped(run, switchCap, readyCap);
    CappedStep(Replay(run, switchCap, readyCap), step, switchCap, readyCap);
  }

  lemma {:induction false} RunCapped(run: seq<Step>, switchCap: nat, readyCap: nat)
    ensures Capped(Replay(run, switchCap, readyCap), switchCap, readyCap)
  {
    if run != [] {
      RunCapped(run[..|run| - 1], switchCap, readyCap);
      CappedStep(Replay(run[..|run| - 1], switchCap, readyCap), run[|run| - 1], switchCap, readyCap);
    }
  }

  /** Everything the caps dropped is older than `from`, some switch held is not newer, and some wake-up is
      held. */
  ghost predicate Reaches(run: seq<Step>, switchCap: nat, readyCap: nat, from: int) {
    var st := Replay(run, switchCap, readyCap);
    && (forall t :: t in Dropped(run, switchCap, readyCap) ==> t < from)
    && (exists s :: s in st.switches && s.ts <= from) && st.readies != []
  }

  /** Over every run the rings claim to reach back to `from` exactly when they do. */
  lemma {:induction false} CoversExactly(run: seq<Step>, switchCap: nat, readyCap: nat, from: int)
    requires InOrder(run)
    ensures Covers(Replay(run, switchCap, readyCap), from) <==> Reaches(run, switchCap, readyCap, from)
  {
    var st := Replay(run, switchCap, readyCap);
    LostIsNewestDropped(run, switchCap, readyCap);
    RingsOrdered(run, switchCap, readyCap);
    if s :| s in st.switches && s.ts <= from {
      FrontIsOldest(st.switches, s);
    }
    assert st.switches != [] ==> st.switches[0] in st.switches;
  }

  lemma FrontIsOldest(ring: seq<SwitchRec>, s: SwitchRec)
    requires TimeOrdered(ring, SwitchTs) && s in ring
    ensures ring[0].ts <= s.ts
  {
    var i :| 0 <= i < |ring| && ring[i] == s;
    assert i > 0 ==> SwitchTs(ring[0]) <= SwitchTs(ring[i]);
  }

  // ---- What pruning leaves ----------------------------------------------------------------------

  /** On a ring in order pruning leaves exactly what is new enough. */
  lemma {:induction false} DropOlderExactly<T(!new)>(ring: seq<T>, ts: T -> int, cutoff: int)
    requires TimeOrdered(ring, ts)
    ensures DropOlder(ring, ts, cutoff) == Filter(ring, From(ts, cutoff))
  {
    if ring != [] {
      var rest := ring[1..];
      assert ring == [ring[0]] + rest;
      if ts(ring[0]) < cutoff {
        DropOlderExactly(rest, ts, cutoff);
        FilterConcat([ring[0]], rest, From(ts, cutoff));
        OnlyOne(ring[0], From(ts, cutoff));
        assert [] + Filter(rest, From(ts, cutoff)) == Filter(rest, From(ts, cutoff));
      } else {
        forall x | x in ring ensures From(ts, cutoff)(x) {
          var i :| 0 <= i < |ring| && ring[i] == x;
          assert i > 0 ==> ts(ring[0]) <= ts(ring[i]);
        }
        FilterAll(ring, From(ts, cutoff));
      }
    }
  }

  ghost predicate RequestsInTurn(st: State, newest: int) {
    TimeOrdered(st.ios, IoEnd) && UpTo(st.ios, IoEnd, newest)
  }

  lemma DropOlderInTurn(ios: seq<IoRec>, cutoff: int, newest: int)
    requires TimeOrdered(ios, IoEnd) && UpTo(ios, IoEnd, newest)
    ensures TimeOrdered(DropOlder(ios, IoEnd, cutoff), IoEnd) && UpTo(DropOlder(ios, IoEnd, cutoff), IoEnd, newest)
    decreases |ios|
  {
    if ios != [] && IoEnd(ios[0]) < cutoff {
      DropOlderInTurn(ios[1..], cutoff, newest);
    }
  }

  lemma InTurnPush(ios: seq<IoRec>, newest: int, i: IoRec)
    requires TimeOrdered(ios, IoEnd) && UpTo(ios, IoEnd, newest) && newest <= i.end
    ensures TimeOrdered(ios + [i], IoEnd) && UpTo(ios + [i], IoEnd, i.end)
  {
    assert IoEnd(i) == i.end && forall x :: x in ios ==> IoEnd(x) <= IoEnd(i);
  }

  lemma {:induction false} InTurnStep(st: State, newest: int, step: Step)
    requires RequestsInTurn(st, newest) && (step.Stamp().Some? ==> newest <= step.Stamp().value)
    ensures RequestsInTurn(Apply(st, step), if step.Stamp().Some? then step.Stamp().value else newest)
  {
    match step
    case Request(i) => InTurnPush(st.ios, newest, i);
    case Pruned(keep) => DropOlderInTurn(st.ios, st.latest - keep, newest);
    case _ =>
  }

  lemma {:induction false} RequestsOrdered(run: seq<Step>, switchCap: nat, readyCap: nat)
    requires InOrder(run)
    ensures RequestsInTurn(Replay(run, switchCap, readyCap), Newest(run))
  {
    if run != [] {
      RequestsOrdered(run[..|run| - 1], switchCap, readyCap);
      InTurnStep(Replay(run[..|run| - 1], switchCap, readyCap), Newest(run[..|run| - 1]), run[|run| - 1]);
    }
  }

  /** After every run in order, pruning leaves in the scheduler rings exactly what is at most six seconds
      behind the trace, and of the requests exactly what is at most `keep` behind it. */
  lemma {:induction false} PrunesExactly(run: seq<Step>, switchCap: nat, readyCap: nat, keep: int)
    requires InOrder(run)
    ensures var (st, next) := (Replay(run, switchCap, readyCap), AfterPrune(Replay(run, switchCap, readyCap), keep));
      && next.switches == Filter(st.switches, From(SwitchTs, st.latest - 6 * FREQ))
      && next.readies == Filter(st.readies, From(ReadyTs, st.latest - 6 * FREQ))
      && next.ios == Filter(st.ios, From(IoEnd, st.latest - keep))
  {
    RingsOrdered(run, switchCap, readyCap);
    RequestsOrdered(run, switchCap, readyCap);
    PruneFilters(Replay(run, switchCap, readyCap), keep);
  }

  lemma {:induction false} PruneFilters(st: State, keep: int)
    requires TimeOrdered(st.switches, SwitchTs) && TimeOrdered(st.readies, ReadyTs) && TimeOrdered(st.ios, IoEnd)
    ensures var next := AfterPrune(st, keep);
      && next.switches == Filter(st.switches, From(SwitchTs, st.latest - 6 * FREQ))
      && next.readies == Filter(st.readies, From(ReadyTs, st.latest - 6 * FREQ))
      && next.ios == Filter(st.ios, From(IoEnd, st.latest - keep))
  {
    DropOlderExactly(st.switches, SwitchTs, st.latest - SWITCH_KEEP);
    DropOlderExactly(st.readies, ReadyTs, st.latest - SWITCH_KEEP);
    DropOlderExactly(st.ios, IoEnd, st.latest - keep);
  }

  lemma WithinFrom<T(!new)>(ring: seq<T>, all: seq<T>, ts: T -> int, from: int, to: int)
    requires Filter(ring, From(ts, from)) == Filter(all, From(ts, from))
    ensures Filter(ring, Within(ts, from, to)) == Filter(all, Within(ts, from, to))
  {
    var upTo := (x: T) => ts(x) <= to;
    FilterTwice(ring, From(ts, from), upTo, Within(ts, from, to));
    FilterTwice(all, From(ts, from), upTo, Within(ts, from, to));
  }

  /** What a window read out of covering rings contains is what was delivered in that window. */
  lemma WindowIsWhole(run: seq<Step>, switchCap: nat, readyCap: nat, from: int, to: int)
    requires InOrder(run) && Covers(Replay(run, switchCap, readyCap), from)
    ensures var st := Replay(run, switchCap, readyCap);
      && Disorder(st.switches, SwitchTs, MS) && Disorder(st.readies, ReadyTs, MS)
      && Filter(st.switches, Within(SwitchTs, from, to)) == Filter(Switches(run), Within(SwitchTs, from, to))
      && Filter(st.readies, Within(ReadyTs, from, to)) == Filter(Readies(run), Within(ReadyTs, from, to))
  {
    CoverageIsSound(run, switchCap, readyCap, from);
    var st := Replay(run, switchCap, readyCap);
    WithinFrom(st.switches, Switches(run), SwitchTs, from, to);
    WithinFrom(st.readies, Readies(run), ReadyTs, from, to);
    RunKeeps(run, switchCap, readyCap);
    TailOrdered(st.switches, Switches(run), SwitchTs, st.lost, Horizon(run, switchCap, readyCap));
    TailOrdered(st.readies, Readies(run), ReadyTs, st.lost, Horizon(run, switchCap, readyCap));
  }

  // ---- Reading a window by binary search --------------------------------------------------------

  /** No record is more than `slop` older than one before it. */
  ghost predicate Disorder<T(!new)>(s: seq<T>, ts: T -> int, slop: nat) {
    forall i, j :: 0 <= i < j < |s| ==> ts(s[i]) <= ts(s[j]) + slop
  }

  /** The slice between two searched edges. Nothing in the window is outside it however the edges
      fall, crossed ones included; on an ordered ring nothing else is inside it. */
  method Between<T(!new)>(s: seq<T>, ts: T -> int, from: int, to: int, slop: nat) returns (r: seq<T>)
    requires Disorder(s, ts, slop)
    ensures Filter(r, Within(ts, from, to)) == Filter(s, Within(ts, from, to))
    ensures slop == 0 ==> r == Filter(s, Within(ts, from, to))
  {
    var lo, hi := from - slop, to + slop;
    var a := PartitionPoint(s, (x: T) => ts(x) < lo);
    var b := PartitionPoint(s, (x: T) => ts(x) <= hi);
    var end := if b < a then a else b;
    r := s[a..end];
    OutsideEdges(s, ts, from, to, slop, a, b);
    FilterSlice(s, Within(ts, from, to), a, end);
    if slop == 0 {
      InsideEdges(s, ts, from, to, a, end);
      FilterAll(r, Within(ts, from, to));
    }
  }

  /** Whatever a search on unsorted data lands on, the boundary it promises is enough. */
  lemma OutsideEdges<T(!new)>(s: seq<T>, ts: T -> int, from: int, to: int, slop: nat, a: nat, b: nat)
    requires Disorder(s, ts, slop) && a <= |s| && b <= |s|
    requires (a > 0 ==> ts(s[a - 1]) < from - slop) && (b < |s| ==> to + slop < ts(s[b]))
    ensures forall i :: 0 <= i < a || b <= i < |s| ==> !Within(ts, from, to)(s[i])
  {
    forall i | 0 <= i < a ensures ts(s[i]) < from {
      assert i < a - 1 ==> ts(s[i]) <= ts(s[a - 1]) + slop;
    }
    forall i | b <= i < |s| ensures to < ts(s[i]) {
      assert b < i ==> ts(s[b]) <= ts(s[i]) + slop;
    }
  }

  lemma InsideEdges<T(!new)>(s: seq<T>, ts: T -> int, from: int, to: int, a: nat, b: nat)
    requires Disorder(s, ts, 0) && a <= b <= |s|
    requires a < b ==> from <= ts(s[a]) && ts(s[b - 1]) <= to
    ensures forall x :: x in s[a..b] ==> Within(ts, from, to)(x)
  {
    forall x | x in s[a..b] ensures Within(ts, from, to)(x) {
      var k :| 0 <= k < |s[a..b]| && s[a..b][k] == x;
      assert s[a + k] == x;
      assert ts(s[a]) <= ts(s[a + k]) + 0 && ts(s[a + k]) <= ts(s[b - 1]) + 0;
    }
  }

  lemma StepRecorded(run: seq<Step>, step: Step, switchCap: nat, readyCap: nat)
    ensures Replay(run + [step], switchCap, readyCap) == Apply(Replay(run, switchCap, readyCap), step)
    ensures InOrder(run) && (step.Stamp().Some? ==> Newest(run) <= step.Stamp().value) ==> InOrder(run + [step])
  {
    assert (run + [step])[..|run|] == run;
  }

  lemma OffInWindow(switches: seq<SwitchRec>, tids: set<nat>, start: int, to: int)
    ensures Filter(Filter(switches, Within(SwitchTs, start, to)), OffOne(tids)) == Filter(switches, OffIn(tids, start, to))
  {
    var within, off, both := Within(SwitchTs, start, to), OffOne(tids), OffIn(tids, start, to);
    assert forall s :: both(s) <==> start <= SwitchTs(s) <= to && s.oldTid in tids;
    FilterTwice(switches, within, off, both);
  }

  // ---- The object -------------------------------------------------------------------------------

  class Inner {
    var latest: int
    var lastPrune: int
    var switches: seq<SwitchRec>
    var readies: seq<ReadyRec>
    var ios: seq<IoRec>
    var switchEvents: nat
    var readyEvents: nat
    var overflowed: bool
    var lost: Option<int>
    const switchCap: nat
    const readyCap: nat
    /** Everything that ever happened to this object. */
    ghost var run: seq<Step>

    function View(): State
      reads this
    {
      State(latest, lastPrune, switches, readies, ios, switchEvents, readyEvents, overflowed, lost, switchCap, readyCap)
    }

    ghost predicate Valid()
      reads this
    {
      InOrder(run) && View() == Replay(run, switchCap, readyCap)
    }

    constructor (switchCap: nat, readyCap: nat)
      ensures Valid() && run == []
      ensures this.switchCap == switchCap && this.readyCap == readyCap
    {
      this.switchCap, this.readyCap := switchCap, readyCap;
      latest, lastPrune, switchEvents, readyEvents := 0, 0, 0, 0;
      switches, readies, ios := [], [], [];
      overflowed, lost := false, None;
      run := [];
    }

    method AddSwitch(r: SwitchRec)
      modifies this`switchEvents, this`switches, this`lost, this`overflowed
      ensures View() == AfterSwitch(old(View()), r)
    {
      switchEvents := switchEvents + 1;
      switches := switches + [r];
      if |switches| > Max(switchCap, SWITCH_CAP) {
        lost := LaterOf(lost, switches[0].ts);
        switches := switches[1..];
        overflowed := true;
      }
    }

    method PushSwitch(r: SwitchRec)
      requires Valid() && Newest(run) <= r.ts
      modifies this
      ensures Valid() && run == old(run) + [Switch(r)]
    {
      AddSwitch(r);
      StepRecorded(run, Switch(r), switchCap, readyCap);
      run := run + [Switch(r)];
    }

    method AddReady(r: ReadyRec)
      modifies this`readyEvents, this`readies, this`lost, this`overflowed
      ensures View() == AfterReady(old(View()), r)
    {
      readyEvents := readyEvents + 1;
      readies := readies + [r];
      if |readies| > Max(readyCap, READY_CAP) {
        lost := LaterOf(lost, readies[0].ts);
        readies := readies[1..];
        overflowed := true;
      }
    }

    method PushReady(r: ReadyRec)
      requires Valid() && Newest(run) <= r.ts
      modifies this
      ensures Valid() && run == old(run) + [Ready(r)]
    {
      AddReady(r);
      StepRecorded(run, Ready(r), switchCap, readyCap);
      run := run + [Ready(r)];
    }

    method PushRequest(i: IoRec)
      requires Valid() && Newest(run) <= i.end
      modifies this
      ensures Valid() && run == old(run) + [Request(i)]
    {
      ios := ios + [i];
      StepRecorded(run, Request(i), switchCap, readyCap);
      run := run + [Request(i)];
    }

    method CatchUp(ts: int)
      requires Valid() && Newest(run) <= ts
      modifies this
      ensures Valid() && run == old(run) + [Caught(ts)]
    {
      latest := Max(latest, ts);
      StepRecorded(run, Caught(ts), switchCap, readyCap);
      run := run + [Caught(ts)];
    }

    method PruneScheduler(cutoff: int)
      modifies this`switches, this`readies
      ensures switches == DropOlder(old(switches), SwitchTs, cutoff)
      ensures readies == DropOlder(old(readies), ReadyTs, cutoff)
    {
      switches := PopOlder(switches, SwitchTs, cutoff);
      readies := PopOlder(readies, ReadyTs, cutoff);
    }

    method PruneRings(keep: int)
      modifies this`switches, this`readies, this`ios, this`lastPrune
      ensures View() == AfterPrune(old(View()), keep)
    {
      var cutoff, switchCutoff := latest - keep, latest - SWITCH_KEEP;
      PruneScheduler(switchCutoff);
      ios := PopOlder(ios, IoEnd, cutoff);
      lastPrune := latest;
    }

    method Prune(keep: int)
      requires Valid()
      modifies this
      ensures Valid() && run == old(run) + [Pruned(keep)]
      ensures switches == Filter(old(switches), From(SwitchTs, latest - 6 * FREQ))
      ensures readies == Filter(old(readies), From(ReadyTs, latest - 6 * FREQ))
      ensures ios == Filter(old(ios), From(IoEnd, latest - keep))
    {
      PrunesExactly(run, switchCap, readyCap, keep);
      PruneRings(keep);
      StepRecorded(run, Pruned(keep), switchCap, readyCap);
      run := run + [Pruned(keep)];
    }

    predicate SwitchesCover(from: int)
      reads this
    {
      Covers(View(), from)
    }

    /** The records of `[from, to]`, on rings out of order by at most a millisecond. */
    method SwitchWindow(from: int, to: int) returns (sw: seq<SwitchRec>, rd: seq<ReadyRec>)
      requires Disorder(switches, SwitchTs, MS) && Disorder(readies, ReadyTs, MS)
      ensures sw == Filter(switches, Within(SwitchTs, from, to))
      ensures rd == Filter(readies, Within(ReadyTs, from, to))
    {
      var near := Between(switches, SwitchTs, from, to, MS);
      sw := Filter(near, Within(SwitchTs, from, to));
      var nearRd := Between(readies, ReadyTs, from, to, MS);
      rd := Filter(nearRd, Within(ReadyTs, from, to));
    }

    method StuckRecords(start: int, end: int, before: int, after: int)
      returns (r: Option<(seq<SwitchRec>, seq<ReadyRec>)>)
      requires Valid()
      ensures r == RecordsBehind(View(), start, end, before, after)
      ensures r.Some? <==> Reaches(run, switchCap, readyCap, start) && latest >= end + after
    {
      CoversExactly(run, switchCap, readyCap, start);
      if !SwitchesCover(start) || latest < end + after {
        return None;
      }
      RingsOrdered(run, switchCap, readyCap);
      var from, to := end - before, end + after;
      var rd := Between(readies, ReadyTs, from, to, 0);
      var tids := Tids(rd);
      var near := Between(switches, SwitchTs, start, to, 0);
      var sw := Filter(near, OffOne(tids));
      OffInWindow(switches, tids, start, to);
      r := Some((sw, rd));
    }
  }
}
