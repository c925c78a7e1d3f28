/** What every run of the stack matcher keeps: no pending event is matched twice, and no stack is
    handed to an event it does not belong to. */
module StackRuns {
  import opened Trace
  import opened Stacks

  // ---- Each pended event: matched once, evicted or outstanding ----------------------------------

  /** A start of this request can be tracked. */
  predicate HasRoom(st: State, irp: nat) { |st.ioInit| < IO_INIT_CAP || irp in st.ioInit }

  /** The event pended by a step, and on which processor. */
  function Asked(st: State, ev: Event): Option<(nat, Pending)> {
    match ev
    case InitEvent(ts, cpu, header, irp, issuer) =>
      if DiskInit !in st.asked then None
      else Some((cpu, Pending(ts, header, issuer, DiskInit, if irp != 0 && HasRoom(st, irp) then ForDiskInit(irp) else Ignore)))
    case FaultEvent(ts, cpu, header, start, tid) =>
      if HardFault !in st.asked then None
      else Some((cpu, Pending(ts, header, tid, HardFault, if ts - start >= KEEP_WAIT then ForFault(start, tid) else Ignore)))
    case SwitchEvent(cpu, header, sw) =>
      if CSwitch !in st.asked then None
      else Some((cpu, Pending(sw.ts, header, sw.newTid, CSwitch, WantBack(st, sw))))
    case ReadyEvent(ts, cpu, header, tid) =>
      if Readied !in st.asked then None
      else Some((cpu, Pending(ts, header, tid, Readied, WantReady(st, ts, tid))))
    case _ => None
  }

  /** The pending event a step takes out, and where it sat. */
  function Takes(st: State, ev: Event): Option<(nat, nat)> {
    if ev.StackEvent? then Find(st.perCpu, ev.cpu, ev.raw.ts, ev.raw.tid) else None
  }

  /** All that ever happens to the slots. */
  lemma SlotsStep(st: State, ev: Event)
    ensures Apply(st, ev).perCpu ==
      if Asked(st, ev).Some? then PendSlots(st.perCpu, Asked(st, ev).value.0, Asked(st, ev).value.1)
      else if Takes(st, ev).Some? then TakeSlot(st.perCpu, Takes(st, ev).value.0, Takes(st, ev).value.1)
      else st.perCpu
  {
    match ev
    case StackEvent(_, _) => StackSlots(st, ev);
    case _ =>
  }

  lemma StackSlots(st: State, ev: Event)
    requires ev.StackEvent?
    ensures Apply(st, ev).perCpu ==
      if Takes(st, ev).Some? then TakeSlot(st.perCpu, Takes(st, ev).value.0, Takes(st, ev).value.1) else st.perCpu
  {}

  /** What keeping a matched stack leaves alone. */
  lemma KeepFrame(st: State, p: Pending, raw: RawStack)
    ensures var kept := Keep(st, p, raw).0;
      && kept.asked == st.asked && kept.offAt == st.offAt && kept.slowIo == st.slowIo
      && kept.ioInit.Keys == st.ioInit.Keys && kept.lost.slowIo == st.lost.slowIo
  {}

  /** What a stack leaves alone. */
  lemma {:induction false} StackFrame(st: State, ev: Event)
    requires ev.StackEvent?
    ensures var next := Apply(st, ev);
      && next.asked == st.asked && next.offAt == st.offAt && next.slowIo == st.slowIo
      && next.ioInit.Keys == st.ioInit.Keys && next.lost.slowIo == st.lost.slowIo
  {
    var at := Find(st.perCpu, ev.cpu, ev.raw.ts, ev.raw.tid);
    if at.Some? {
      var (c, i) := at.value;
      KeepFrame(st.(perCpu := TakeSlot(st.perCpu, c, i)), st.perCpu[c][i], ev.raw);
      assert Apply(st, ev) == Give(st, ev.cpu, ev.raw, c, i);
    }
  }

  lemma {:induction false} AskedKept(st: State, ev: Event)
    ensures Apply(st, ev).asked == st.asked
  {
    match ev
    case StackEvent(_, _) => StackFrame(st, ev);
    case _ =>
  }

  lemma OverwrittenStep(st: State, ev: Event)
    ensures Apply(st, ev).counts.overwritten == st.counts.overwritten +
      if Asked(st, ev).Some? && Evicts(st.perCpu, Asked(st, ev).value.0).Some?
         && !Evicts(st.perCpu, Asked(st, ev).value.0).value.want.Ignore? then 1 else 0
  {}

  function Outstanding(perCpu: seq<seq<Pending>>): multiset<Pending> {
    if perCpu == [] then multiset{} else multiset(perCpu[0]) + Outstanding(perCpu[1..])
  }

  function One(p: Option<Pending>): multiset<Pending> {
    if p.Some? then multiset{p.value} else multiset{}
  }

  function Pended(st: State, ev: Event): Option<Pending> {
    if Asked(st, ev).Some? then Some(Asked(st, ev).value.1) else None
  }

  function Evicted(st: State, ev: Event): Option<Pending> {
    if Asked(st, ev).Some? then Evicts(st.perCpu, Asked(st, ev).value.0) else None
  }

  function Matched(st: State, ev: Event): Option<Pending> {
    if Takes(st, ev).Some? then Some(st.perCpu[Takes(st, ev).value.0][Takes(st, ev).value.1]) else None
  }

  /** How the slots stand after a run, and what was pended, evicted and matched on the way. */
  datatype Ledger = Ledger(pended: multiset<Pending>, evicted: multiset<Pending>, matched: multiset<Pending>, overwritten: nat)

  function Book(run: seq<Event>, asked: set<Kind>, switchCap: nat, readyCap: nat): Ledger {
    if run == [] then Ledger(multiset{}, multiset{}, multiset{}, 0)
    else
      var st, ev := Replay(run[..|run| - 1], asked, switchCap, readyCap), run[|run| - 1];
      var b := Book(run[..|run| - 1], asked, switchCap, readyCap);
      Booked(b, st, ev)
  }

  function Booked(b: Ledger, st: State, ev: Event): Ledger {
    var gone := Evicted(st, ev);
    Ledger(b.pended + One(Pended(st, ev)), b.evicted + One(gone), b.matched + One(Matched(st, ev)),
           b.overwritten + if gone.Some? && !gone.value.want.Ignore? then 1 else 0)
  }

  ghost predicate Bounded(perCpu: seq<seq<Pending>>) {
    forall c :: 0 <= c < |perCpu| ==> |perCpu[c]| <= PENDING_PER_CPU
  }

  lemma {:induction false} OutstandingUpdate(perCpu: seq<seq<Pending>>, c: nat, slots: seq<Pending>)
    requires c < |perCpu|
    ensures Outstanding(perCpu[c := slots]) + multiset(perCpu[c]) == Outstanding(perCpu) + multiset(slots)
  {
    var new' := perCpu[c := slots];
    if c == 0 {
      assert new'[1..] == perCpu[1..] && new'[0] == slots;
    } else {
      var rest := perCpu[1..];
      assert new'[0] == perCpu[0] && new'[1..] == rest[c - 1 := slots] && rest[c - 1] == perCpu[c];
      OutstandingUpdate(rest, c - 1, slots);
      var first := multiset(perCpu[0]);
      assert Outstanding(new') == first + Outstanding(rest[c - 1 := slots]);
      assert (first + Outstanding(rest[c - 1 := slots])) + multiset(perCpu[c])
          == first + (Outstanding(rest[c - 1 := slots]) + multiset(perCpu[c]))
          == first + (Outstanding(rest) + multiset(slots));
    }
  }

  lemma {:induction false} OutstandingGrow(perCpu: seq<seq<Pending>>, n: nat)
    ensures Outstanding(Grow(perCpu, n)) == Outstanding(perCpu)
    decreases |perCpu| + n
  {
    if |perCpu| < n {
      var grown := Grow(perCpu, n);
      if perCpu == [] {
        if n > 0 {
          assert grown[1..] == Grow([], n - 1);
          assert multiset(grown[0]) == multiset{};
          OutstandingGrow([], n - 1);
        }
      } else {
        assert grown[1..] == Grow(perCpu[1..], n - 1);
        OutstandingGrow(perCpu[1..], n - 1);
      }
    }
  }

  /** Pushing one slot onto a processor's, with or without the oldest falling out. */
  lemma SlotPushed<T>(slots: seq<T>, p: T)
    ensures multiset(slots + [p]) == multiset(slots) + multiset{p}
    ensures slots != [] ==> multiset(slots) + multiset{p} == multiset((slots + [p])[1..]) + multiset{slots[0]}
  {
    var full := slots + [p];
    if slots != [] {
      assert full == [slots[0]] + full[1..];
      assert multiset(full) == multiset{slots[0]} + multiset(full[1..]);
    }
  }

  lemma PendBounded(perCpu: seq<seq<Pending>>, cpu: nat, p: Pending)
    requires Bounded(perCpu)
    ensures Bounded(PendSlots(perCpu, cpu, p))
  {}

  lemma PendKeeps(perCpu: seq<seq<Pending>>, cpu: nat, p: Pending)
    ensures Outstanding(PendSlots(perCpu, cpu, p)) + One(Evicts(perCpu, cpu)) == Outstanding(perCpu) + multiset{p}
  {
    var slots, grown := SlotsOf(perCpu, cpu), Grow(perCpu, cpu + 1);
    assert grown[cpu] == slots;
    OutstandingGrow(perCpu, cpu + 1);
    SlotPushed(slots, p);
    if |slots| >= PENDING_PER_CPU {
      PushInto(grown, cpu, (slots + [p])[1..], multiset{slots[0]}, p);
    } else {
      PushInto(grown, cpu, slots + [p], multiset{}, p);
    }
  }

  lemma PushInto(perCpu: seq<seq<Pending>>, c: nat, next: seq<Pending>, out: multiset<Pending>, p: Pending)
    requires c < |perCpu| && multiset(perCpu[c]) + multiset{p} == multiset(next) + out
    ensures Outstanding(perCpu[c := next]) + out == Outstanding(perCpu) + multiset{p}
  {
    OutstandingUpdate(perCpu, c, next);
    Cancel(Outstanding(perCpu[c := next]), multiset(perCpu[c]), Outstanding(perCpu), multiset(next), out, multiset{p});
  }

  lemma Cancel<T>(r: multiset<T>, s: multiset<T>, o: multiset<T>, n: multiset<T>, one: multiset<T>, p: multiset<T>)
    requires r + s == o + n && s + p == n + one
    ensures r + one == o + p
  {
    assert (r + one) + (s + n) == (r + s) + (n + one) == (o + n) + (s + p) == (o + p) + (s + n);
    Uncancel(r + one, o + p, s + n);
  }

  lemma Uncancel<T>(a: multiset<T>, b: multiset<T>, c: multiset<T>)
    requires a + c == b + c
    ensures a == b
  {
    assert a == (a + c) - c && b == (b + c) - c;
  }

  lemma TakeKeeps(perCpu: seq<seq<Pending>>, c: nat, i: nat)
    requires Bounded(perCpu) && c < |perCpu| && i < |perCpu[c]|
    ensures Bounded(TakeSlot(perCpu, c, i))
    ensures Outstanding(TakeSlot(perCpu, c, i)) + multiset{perCpu[c][i]} == Outstanding(perCpu)
  {
    var slots, rest := perCpu[c], Without(perCpu[c], i);
    assert slots == slots[..i] + [slots[i]] + slots[i + 1..];
    assert multiset(slots) == multiset(rest) + multiset{slots[i]};
    OutstandingUpdate(perCpu, c, rest);
    var taken := Outstanding(TakeSlot(perCpu, c, i));
    assert (taken + multiset{slots[i]}) + multiset(rest) == taken + multiset(slots) == Outstanding(perCpu) + multiset(rest);
    Uncancel(taken + multiset{slots[i]}, Outstanding(perCpu), multiset(rest));
  }

  ghost predicate Balanced(perCpu: seq<seq<Pending>>, overwritten: nat, b: Ledger) {
    && b.pended == b.matched + b.evicted + Outstanding(perCpu)
    && Bounded(perCpu) && overwritten == b.overwritten
  }

  lemma BalancedStep(st: State, ev: Event, b: Ledger)
    requires Balanced(st.perCpu, st.counts.overwritten, b)
    ensures Balanced(Apply(st, ev).perCpu, Apply(st, ev).counts.overwritten, Booked(b, st, ev))
  {
    SlotsStep(st, ev);
    OverwrittenStep(st, ev);
    SlotsBalanced(st.perCpu, Asked(st, ev), Takes(st, ev), b, Booked(b, st, ev));
  }

  /** The same on the slots alone. */
  lemma SlotsBalanced(perCpu: seq<seq<Pending>>, asks: Option<(nat, Pending)>, takes: Option<(nat, nat)>, b: Ledger, b': Ledger)
    requires asks.None? || takes.None?
    requires takes.Some? ==> takes.value.0 < |perCpu| && takes.value.1 < |perCpu[takes.value.0]|
    requires Bounded(perCpu) && b.pended == b.matched + b.evicted + Outstanding(perCpu)
    requires b'.pended == b.pended + One(if asks.Some? then Some(asks.value.1) else None)
    requires b'.evicted == b.evicted + One(if asks.Some? then Evicts(perCpu, asks.value.0) else None)
    requires b'.matched == b.matched + One(if takes.Some? then Some(perCpu[takes.value.0][takes.value.1]) else None)
    ensures var next :=
        if asks.Some? then PendSlots(perCpu, asks.value.0, asks.value.1)
        else if takes.Some? then TakeSlot(perCpu, takes.value.0, takes.value.1)
        else perCpu;
      Bounded(next) && b'.pended == b'.matched + b'.evicted + Outstanding(next)
  {
    if asks.Some? {
      var (cpu, p) := asks.value;
      PendBounded(perCpu, cpu, p);
      PendKeeps(perCpu, cpu, p);
      AddBoth(b, Outstanding(perCpu), Outstanding(PendSlots(perCpu, cpu, p)), One(Evicts(perCpu, cpu)), multiset{p});
    } else if takes.Some? {
      TakeKeeps(perCpu, takes.value.0, takes.value.1);
    }
  }

  lemma AddBoth(b: Ledger, before: multiset<Pending>, after: multiset<Pending>, gone: multiset<Pending>, p: multiset<Pending>)
    requires b.pended == b.matched + b.evicted + before && after + gone == before + p
    ensures b.pended + p == b.matched + (b.evicted + gone) + after
  {
    assert b.matched + (b.evicted + gone) + after == b.matched + b.evicted + (after + gone);
  }

  /** Over every run each pended event is matched at most once and is otherwise evicted or still
      outstanding, at most four per processor; and every evicted event that was wanted for
      something is counted as overwritten. */
  lemma {:induction false} MatchedAtMostOnce(run: seq<Event>, asked: set<Kind>, switchCap: nat, readyCap: nat)
    ensures var st := Replay(run, asked, switchCap, readyCap);
      Balanced(st.perCpu, st.counts.overwritten, Book(run, asked, switchCap, readyCap))
  {
    if run != [] {
      var init, ev := run[..|run| - 1], run[|run| - 1];
      MatchedAtMostOnce(init, asked, switchCap, readyCap);
      BalancedStep(Replay(init, asked, switchCap, readyCap), ev, Book(init, asked, switchCap, readyCap));
    }
  }
}
