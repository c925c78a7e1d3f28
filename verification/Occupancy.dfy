/** What occupied a processor while a thread was waiting for it. */
module Occupancy {
  import opened Trace
  import opened Seqs

  datatype RanInstead =
    | Idle
    | Thread(tid: nat, prio: int, held: int)
    | Unknown

  // ---- The declarative reading: tick by tick ----------------------------------------------------

  /** The newest switch on `cpu` at or before tick `t`. */
  function NewestOn(sw: seq<SwitchRec>, cpu: nat, t: int): Option<SwitchRec> {
    Last(sw, OnBy(cpu, t))
  }

  function OnBy(cpu: nat, t: int): SwitchRec -> bool {
    (s: SwitchRec) => s.cpu == cpu && s.ts <= t
  }

  predicate Occupies(sw: seq<SwitchRec>, cpu: nat, t: int, tid: nat) {
    var s := NewestOn(sw, cpu, t);
    s.Some? && s.value.newTid == tid
  }

  /** How many ticks of `[from, to)` the thread is on the processor. */
  function TicksOf(sw: seq<SwitchRec>, cpu: nat, from: int, to: int, tid: nat): (n: nat)
    ensures n <= Max(to - from, 0)
    decreases (to - from)
  {
    if to <= from then 0
    else TicksOf(sw, cpu, from, to - 1, tid) + if Occupies(sw, cpu, to - 1, tid) then 1 else 0
  }

  /** The newest switch that put `tid` on `cpu` at or before `t`, whose priority is reported. */
  function NewestOnto(sw: seq<SwitchRec>, cpu: nat, t: int, tid: nat): Option<SwitchRec> {
    Last(sw, OntoBy(cpu, t, tid))
  }

  function OntoBy(cpu: nat, t: int, tid: nat): SwitchRec -> bool {
    (s: SwitchRec) => s.cpu == cpu && s.ts <= t && s.newTid == tid
  }

  function Inside(cpu: nat, from: int, to: int): SwitchRec -> bool {
    (s: SwitchRec) => s.cpu == cpu && from < s.ts <= to
  }

  // ---- Between two switches nothing changes -----------------------------------------------------

  /** With the first `k` inside switches at or before `t`, the newest is the `k`-th of them. */
  lemma {:induction false} NewestBetween(sw: seq<SwitchRec>, cpu: nat, from: int, to: int, t: int, k: nat)
    requires TimeOrdered(sw, SwitchTs) && from <= t <= to
    requires var inside := Filter(sw, Inside(cpu, from, to));
      k <= |inside| && (k > 0 ==> inside[k - 1].ts <= t) && (k < |inside| ==> t < inside[k].ts)
    ensures NewestOn(sw, cpu, t) ==
      if k > 0 then Some(Filter(sw, Inside(cpu, from, to))[k - 1]) else NewestOn(sw, cpu, from)
  {
    var p := Inside(cpu, from, to);
    if sw != [] {
      var init, last := sw[..|sw| - 1], sw[|sw| - 1];
      if last.cpu == cpu && last.ts <= from {
        forall s | s in init ensures !p(s) {
          var i :| 0 <= i < |init| && init[i] == s;
          assert SwitchTs(sw[i]) <= SwitchTs(last);
        }
        FilterNone(init, p);
      } else if !(p(last) && last.ts <= t && k == |Filter(sw, p)|) {
        if p(last) {
          InsideOrdered(sw, cpu, from, to);
          var inside := Filter(sw, p);
          assert inside == Filter(init, p) + [last];
          assert inside[|inside| - 1] == last;
          assert k < |inside|;
          assert SwitchTs(inside[k]) <= SwitchTs(inside[|inside| - 1]);
        }
        NewestBetween(init, cpu, from, to, t, k);
      }
    }
  }

  lemma {:induction false} InsideOrdered(sw: seq<SwitchRec>, cpu: nat, from: int, to: int)
    requires TimeOrdered(sw, SwitchTs)
    ensures TimeOrdered(Filter(sw, Inside(cpu, from, to)), SwitchTs)
    ensures forall s :: s in Filter(sw, Inside(cpu, from, to)) ==> s in sw && from < s.ts <= to && s.cpu == cpu
  {
    var p := Inside(cpu, from, to);
    FilterMembers(sw, p);
    if sw != [] {
      var init, last := sw[..|sw| - 1], sw[|sw| - 1];
      InsideOrdered(init, cpu, from, to);
      FilterMembers(init, p);
      forall s | s in Filter(init, p) ensures s.ts <= last.ts {
        var i :| 0 <= i < |init| && init[i] == s;
        assert SwitchTs(sw[i]) <= SwitchTs(last);
      }
      var rest := Filter(init, p);
      assert forall i :: 0 <= i < |rest| ==> rest[i] in rest;
    }
  }

  function Gain(current: Option<SwitchRec>, tid: nat, span: int): int {
    if current.Some? && current.value.newTid == tid then span else 0
  }

  /** A stretch held by one thread adds its length to that thread and nothing to any other. */
  lemma {:induction false} TicksExtend(
      sw: seq<SwitchRec>, cpu: nat, from: int, a: int, b: int, current: Option<SwitchRec>, tid: nat)
    requires from <= a <= b
    requires forall t :: a <= t < b ==> NewestOn(sw, cpu, t) == current
    ensures TicksOf(sw, cpu, from, b, tid) == TicksOf(sw, cpu, from, a, tid) + Gain(current, tid, b - a)
    decreases b - a
  {
    if a < b {
      TicksExtend(sw, cpu, from, a, b - 1, current, tid);
      assert NewestOn(sw, cpu, b - 1) == current;
    }
  }

  // ---- The replay -------------------------------------------------------------------------------

  /** Ticks held and last priority, per thread. */
  type Totals = map<nat, (int, int)>

  function Credit(held: Totals, current: Option<SwitchRec>, span: int): Totals {
    if current.None? then held
    else
      var tid := current.value.newTid;
      held[tid := (HeldOf(held, tid) + span, current.value.newPrio)]
  }

  function HeldOf(held: Totals, tid: nat): int {
    if tid in held then held[tid].0 else 0
  }

  /** Every thread's total is its number of ticks so far. */
  ghost predicate Counts(held: Totals, sw: seq<SwitchRec>, cpu: nat, from: int, to: int) {
    forall tid: nat :: CountAt(held, sw, cpu, from, to, tid)
  }

  ghost predicate CountAt(held: Totals, sw: seq<SwitchRec>, cpu: nat, from: int, to: int, tid: nat) {
    HeldOf(held, tid) == TicksOf(sw, cpu, from, to, tid)
  }

  /** Where the replay stands before the `k`th switch inside the window. */
  ghost predicate Standing(sw: seq<SwitchRec>, cpu: nat, from: int, to: int, k: nat, prev: int,
                            current: Option<SwitchRec>, held: Totals) {
    var inside := Filter(sw, Inside(cpu, from, to));
    && k <= |inside| && from <= prev <= to
    && (if k > 0 then prev == inside[k - 1].ts && current == Some(inside[k - 1])
        else prev == from && current == NewestOn(sw, cpu, from))
    && Counts(held, sw, cpu, from, prev)
    && Credited(held, Flushed(sw, cpu, from, inside, k))
  }

  lemma InsideAt(sw: seq<SwitchRec>, cpu: nat, from: int, to: int, k: nat)
    requires TimeOrdered(sw, SwitchTs) && k < |Filter(sw, Inside(cpu, from, to))|
    ensures var inside := Filter(sw, Inside(cpu, from, to));
      from < inside[k].ts <= to && (k > 0 ==> inside[k - 1].ts <= inside[k].ts)
  {
    var inside := Filter(sw, Inside(cpu, from, to));
    InsideOrdered(sw, cpu, from, to);
    assert inside[k] in inside;
    assert k > 0 ==> SwitchTs(inside[k - 1]) <= SwitchTs(inside[k]);
  }

  lemma StandingNext(sw: seq<SwitchRec>, cpu: nat, from: int, to: int, k: nat, prev: int,
                     current: Option<SwitchRec>, held: Totals, s: SwitchRec, held': Totals)
    requires TimeOrdered(sw, SwitchTs) && from < to && Standing(sw, cpu, from, to, k, prev, current, held)
    requires k < |Filter(sw, Inside(cpu, from, to))| && s == Filter(sw, Inside(cpu, from, to))[k]
    requires held' == Credit(held, current, s.ts - prev)
    ensures Standing(sw, cpu, from, to, k + 1, s.ts, Some(s), held')
  {
    var inside := Filter(sw, Inside(cpu, from, to));
    InsideAt(sw, cpu, from, to, k);
    Stretch(sw, cpu, from, to, k, prev, inside[k].ts, held, current);
    FlushNext(sw, cpu, from, inside, k, held, current, inside[k].ts - prev);
  }

  lemma StandingEnd(sw: seq<SwitchRec>, cpu: nat, from: int, to: int, prev: int, current: Option<SwitchRec>, held: Totals)
    requires TimeOrdered(sw, SwitchTs) && from < to
    requires Standing(sw, cpu, from, to, |Filter(sw, Inside(cpu, from, to))|, prev, current, held)
    ensures Counts(Credit(held, current, to - prev), sw, cpu, from, to)
    ensures Credited(Credit(held, current, to - prev), Seen(sw, cpu, from, to))
  {
    var inside := Filter(sw, Inside(cpu, from, to));
    Stretch(sw, cpu, from, to, |inside|, prev, to, held, current);
    FlushNext(sw, cpu, from, inside, |inside|, held, current, to - prev);
    assert inside[..|inside|] == inside;
  }

  lemma SeenAtEnd(sw: seq<SwitchRec>, cpu: nat, from: int, to: int)
    requires TimeOrdered(sw, SwitchTs) && from < to
    ensures Seen(sw, cpu, from, to) != [] <==> NewestOn(sw, cpu, to).Some?
  {
    var inside := Filter(sw, Inside(cpu, from, to));
    if inside != [] {
      InsideAt(sw, cpu, from, to, |inside| - 1);
    }
    NewestBetween(sw, cpu, from, to, to, |inside|);
  }

  method HeldTotals(sw: seq<SwitchRec>, cpu: nat, from: int, to: int) returns (held: Totals)
    requires TimeOrdered(sw, SwitchTs) && from < to
    ensures Counts(held, sw, cpu, from, to)
    ensures forall tid :: tid in held ==>
      var onto := NewestOnto(sw, cpu, to, tid); onto.Some? && held[tid].1 == onto.value.newPrio
    ensures held != map[] <==> NewestOn(sw, cpu, to).Some?
  {
    held := ReplayTotals(sw, cpu, from, to);
    CreditedEmpty(held, Seen(sw, cpu, from, to));
    SeenAtEnd(sw, cpu, from, to);
    PriosMean(sw, cpu, from, to, held);
  }

  method ReplayTotals(sw: seq<SwitchRec>, cpu: nat, from: int, to: int) returns (held: Totals)
    requires TimeOrdered(sw, SwitchTs) && from < to
    ensures Counts(held, sw, cpu, from, to) && Credited(held, Seen(sw, cpu, from, to))
  {
    var current := NewestOn(sw, cpu, from);
    var inside := Filter(sw, Inside(cpu, from, to));
    held := map[];
    var prev := from;
    StandingStart(sw, cpu, from, to);
    for k := 0 to |inside|
      invariant Standing(sw, cpu, from, to, k, prev, current, held)
    {
      var s := inside[k];
      var held' := Credit(held, current, s.ts - prev);
      StandingNext(sw, cpu, from, to, k, prev, current, held, s, held');
      held, current, prev := held', Some(s), s.ts;
    }
    StandingEnd(sw, cpu, from, to, prev, current, held);
    held := Credit(held, current, to - prev);
  }

  lemma StandingStart(sw: seq<SwitchRec>, cpu: nat, from: int, to: int)
    requires TimeOrdered(sw, SwitchTs) && from < to
    ensures Standing(sw, cpu, from, to, 0, from, NewestOn(sw, cpu, from), map[])
  {}

  /** The stretch up to the next switch belongs to `current`: crediting it keeps the count. */
  lemma Stretch(sw: seq<SwitchRec>, cpu: nat, from: int, to: int, k: nat,
                a: int, b: int, held: Totals, current: Option<SwitchRec>)
    requires TimeOrdered(sw, SwitchTs) && from <= a <= b <= to
    requires var inside := Filter(sw, Inside(cpu, from, to));
      && k <= |inside| && (k > 0 ==> inside[k - 1].ts <= a) && b <= (if k < |inside| then inside[k].ts else to)
      && current == if k > 0 then Some(inside[k - 1]) else NewestOn(sw, cpu, from)
    requires Counts(held, sw, cpu, from, a)
    ensures Counts(Credit(held, current, b - a), sw, cpu, from, b)
  {
    forall t | a <= t < b ensures NewestOn(sw, cpu, t) == current {
      NewestBetween(sw, cpu, from, to, t, k);
    }
    var held' := Credit(held, current, b - a);
    forall tid: nat ensures CountAt(held', sw, cpu, from, b, tid) {
      TicksExtend(sw, cpu, from, a, b, current, tid);
      assert CountAt(held, sw, cpu, from, a, tid);
    }
  }

  // ---- Which priority is reported ---------------------------------------------------------------

  /** The switches credited once `k` inside switches have been seen: all but the current one. */
  ghost function Flushed(sw: seq<SwitchRec>, cpu: nat, from: int, inside: seq<SwitchRec>, k: nat): seq<SwitchRec>
    requires k <= |inside|
  {
    if k == 0 then [] else First(sw, cpu, from) + inside[..k - 1]
  }

  /** The switch in force at the first tick of the window, if one is known. */
  ghost function First(sw: seq<SwitchRec>, cpu: nat, from: int): seq<SwitchRec> {
    var first := NewestOn(sw, cpu, from);
    if first.Some? then [first.value] else []
  }

  ghost function LastOnto(s: seq<SwitchRec>, tid: nat): Option<SwitchRec> {
    Last(s, Onto(tid))
  }

  function Onto(tid: nat): SwitchRec -> bool {
    (s: SwitchRec) => s.newTid == tid
  }

  /** Every credited thread carries the priority of its last credited switch. */
  ghost predicate Credited(held: Totals, credited: seq<SwitchRec>) {
    forall tid: nat :: CreditedAt(held, credited, tid)
  }

  ghost predicate CreditedAt(held: Totals, credited: seq<SwitchRec>, tid: nat) {
    && (tid in held <==> LastOnto(credited, tid).Some?)
    && (tid in held ==> held[tid].1 == LastOnto(credited, tid).value.newPrio)
  }

  lemma CreditedEmpty(held: Totals, credited: seq<SwitchRec>)
    requires Credited(held, credited)
    ensures held != map[] <==> credited != []
  {
    if credited != [] {
      assert CreditedAt(held, credited, credited[|credited| - 1].newTid);
    }
    if tid :| tid in held {
      assert CreditedAt(held, credited, tid);
    }
  }

  /** The switches that can be on the processor at some tick of the window. */
  ghost function Seen(sw: seq<SwitchRec>, cpu: nat, from: int, to: int): seq<SwitchRec> {
    First(sw, cpu, from) + Filter(sw, Inside(cpu, from, to))
  }

  lemma FlushNext(sw: seq<SwitchRec>, cpu: nat, from: int, inside: seq<SwitchRec>, k: nat,
                  held: Totals, current: Option<SwitchRec>, span: int)
    requires k <= |inside| && Credited(held, Flushed(sw, cpu, from, inside, k))
    requires current == if k > 0 then Some(inside[k - 1]) else NewestOn(sw, cpu, from)
    ensures Credited(Credit(held, current, span), First(sw, cpu, from) + inside[..k])
  {
    var next := First(sw, cpu, from) + inside[..k];
    if current.Some? {
      assert next == Flushed(sw, cpu, from, inside, k) + [current.value];
      assert next[..|next| - 1] == Flushed(sw, cpu, from, inside, k);
    } else {
      assert next == [];
    }
    var held' := Credit(held, current, span);
    forall tid: nat ensures CreditedAt(held', next, tid) {
      assert CreditedAt(held, Flushed(sw, cpu, from, inside, k), tid);
    }
  }

  lemma PriosMean(sw: seq<SwitchRec>, cpu: nat, from: int, to: int, held: Totals)
    requires TimeOrdered(sw, SwitchTs) && from <= to && Credited(held, Seen(sw, cpu, from, to))
    ensures forall tid :: tid in held ==>
      var onto := NewestOnto(sw, cpu, to, tid); onto.Some? && held[tid].1 == onto.value.newPrio
  {
    forall tid | tid in held
      ensures LastOnto(Seen(sw, cpu, from, to), tid).Some?
      ensures NewestOnto(sw, cpu, to, tid) == LastOnto(Seen(sw, cpu, from, to), tid)
      ensures held[tid].1 == LastOnto(Seen(sw, cpu, from, to), tid).value.newPrio
    {
      assert CreditedAt(held, Seen(sw, cpu, from, to), tid);
      OntoSeen(sw, cpu, from, to, tid);
    }
  }

  lemma {:induction false} OntoSeen(sw: seq<SwitchRec>, cpu: nat, from: int, to: int, tid: nat)
    requires TimeOrdered(sw, SwitchTs) && from <= to && LastOnto(Seen(sw, cpu, from, to), tid).Some?
    ensures NewestOnto(sw, cpu, to, tid) == LastOnto(Seen(sw, cpu, from, to), tid)
  {
    var p := Inside(cpu, from, to);
    if sw != [] {
      var init, last := sw[..|sw| - 1], sw[|sw| - 1];
      var seen := Seen(sw, cpu, from, to);
      if p(last) {
        assert seen == Seen(init, cpu, from, to) + [last];
        assert seen[..|seen| - 1] == Seen(init, cpu, from, to);
        if last.newTid != tid {
          OntoSeen(init, cpu, from, to, tid);
        }
      } else if last.cpu == cpu && last.ts <= from {
        forall s | s in init ensures !p(s) {
          var i :| 0 <= i < |init| && init[i] == s;
          assert SwitchTs(sw[i]) <= SwitchTs(last);
        }
        FilterNone(init, p);
        assert seen == [last];
        LastFacts([last], Onto(tid));
      } else {
        OntoSeen(init, cpu, from, to, tid);
      }
    }
  }

  // ---- The verdict ------------------------------------------------------------------------------

  predicate Other(tid: nat, exclude: nat) {
    tid != IDLE_TID && tid != exclude
  }

  /** The candidate held longest, whatever order the map is walked in. */
  method MostHeld(held: Totals, exclude: nat) returns (best: Option<nat>)
    ensures best.Some? ==> best.value in held && Other(best.value, exclude)
    ensures best.Some? ==> forall tid :: tid in held && Other(tid, exclude) ==> held[tid].0 <= held[best.value].0
    ensures best.None? ==> forall tid :: tid in held ==> !Other(tid, exclude)
  {
    best := None;
    var left := held.Keys;
    while left != {}
      invariant left <= held.Keys
      invariant best.Some? ==> best.value in held && Other(best.value, exclude)
      invariant forall tid :: tid in held && tid !in left && Other(tid, exclude) ==>
        best.Some? && held[tid].0 <= held[best.value].0
      decreases left
    {
      var tid :| tid in left;
      if Other(tid, exclude) && (best.None? || held[best.value].0 <= held[tid].0) {
        best := Some(tid);
      }
      left := left - {tid};
    }
  }

  /** Some thread that is neither the idle one nor this had the processor for a tick. */
  ghost predicate SomeoneElse(sw: seq<SwitchRec>, cpu: nat, from: int, to: int, tid: nat) {
    exists t: nat :: t != 0 && t != tid && TicksOf(sw, cpu, from, to, t) != 0
  }

  /** Answers for `cpu` over `[from, to)`, the thread `exclude` apart: idle if the idle thread has nine
      tenths of the ticks, else the thread with the most. */
  method HeldBy(sw: seq<SwitchRec>, cpu: nat, from: int, to: int, exclude: nat) returns (r: RanInstead)
    requires TimeOrdered(sw, SwitchTs)
    ensures r.Idle? <==> from < to && 10 * TicksOf(sw, cpu, from, to, IDLE_TID) >= 9 * (to - from)
    ensures r.Unknown? <==> to <= from || (!r.Idle? && !SomeoneElse(sw, cpu, from, to, exclude))
    ensures r.Thread? ==>
      && r.tid != 0 && r.tid != exclude && r.held == TicksOf(sw, cpu, from, to, r.tid) && 0 < r.held <= to - from
      && (forall tid: nat :: tid != 0 && tid != exclude ==> TicksOf(sw, cpu, from, to, tid) <= r.held)
      && NewestOnto(sw, cpu, to, r.tid).Some? && r.prio == NewestOnto(sw, cpu, to, r.tid).value.newPrio
  {
    if to <= from {
      return Unknown;
    }
    var held := HeldTotals(sw, cpu, from, to);
    assert forall tid :: Other(tid, exclude) <==> tid != 0 && tid != exclude;
    forall tid: nat ensures TicksOf(sw, cpu, from, to, tid) == HeldOf(held, tid) {
      assert CountAt(held, sw, cpu, from, to, tid);
    }
    if held == map[] {
      return Unknown;
    }
    if 10 * HeldOf(held, IDLE_TID) >= 9 * (to - from) {
      return Idle;
    }
    var best := MostHeld(held, exclude);
    if best.Some? && held[best.value].0 > 0 {
      r := Thread(best.value, held[best.value].1, held[best.value].0);
      assert HeldOf(held, best.value) == TicksOf(sw, cpu, from, to, best.value);
    } else {
      r := Unknown;
    }
  }

  // ---- Totals add up ----------------------------------------------------------------------------

  ghost function Sum(tids: set<nat>, f: nat -> int): int {
    if tids == {} then 0 else var tid :| tid in tids; f(tid) + Sum(tids - {tid}, f)
  }

  lemma SumTake(tids: set<nat>, f: nat -> int, tid: nat)
    requires tid in tids
    ensures Sum(tids, f) == f(tid) + Sum(tids - {tid}, f)
  {
    var first :| first in tids && Sum(tids, f) == f(first) + Sum(tids - {first}, f);
    if first != tid {
      SumTake(tids - {first}, f, tid);
      SumTake(tids - {tid}, f, first);
      assert tids - {first} - {tid} == tids - {tid} - {first};
    }
  }

  lemma SumSame(tids: set<nat>, f: nat -> int, g: nat -> int)
    requires forall tid :: tid in tids ==> f(tid) == g(tid)
    ensures Sum(tids, f) == Sum(tids, g)
  {
    if tids != {} {
      var tid :| tid in tids;
      SumTake(tids, f, tid);
      SumTake(tids, g, tid);
      SumSame(tids - {tid}, f, g);
    }
  }

  lemma SumZero(tids: set<nat>, f: nat -> int)
    requires forall tid :: tid in tids ==> f(tid) == 0
    ensures Sum(tids, f) == 0
  {
    if tids != {} {
      var tid :| tid in tids;
      SumTake(tids, f, tid);
      SumZero(tids - {tid}, f);
    }
  }

  /** The first tick of `[from, to]` at which anything is known, or `to`. */
  function KnownFrom(sw: seq<SwitchRec>, cpu: nat, from: int, to: int): int {
    var inside := Filter(sw, Inside(cpu, from, to));
    if NewestOn(sw, cpu, from).Some? then from
    else if inside != [] then inside[0].ts
    else to
  }

  function TicksIn(sw: seq<SwitchRec>, cpu: nat, from: int, to: int): nat -> int {
    (tid: nat) => TicksOf(sw, cpu, from, to, tid) as int
  }

  /** No tick is counted twice or dropped: the threads' totals sum to the whole window, or to what
      is left of it from the first switch when nothing earlier is known. */
  lemma TotalsAddUp(sw: seq<SwitchRec>, cpu: nat, from: int, to: int, tids: set<nat>)
    requires TimeOrdered(sw, SwitchTs) && from <= to
    requires forall t, tid :: from <= t < to && Occupies(sw, cpu, t, tid) ==> tid in tids
    ensures Sum(tids, TicksIn(sw, cpu, from, to)) == to - KnownFrom(sw, cpu, from, to)
  {
    var known := KnownFrom(sw, cpu, from, to);
    InsideOrdered(sw, cpu, from, to);
    var inside := Filter(sw, Inside(cpu, from, to));
    assert inside != [] ==> inside[0] in inside;
    forall t | from <= t < to ensures NewestOn(sw, cpu, t).Some? <==> known <= t {
      var k := CountUpTo(inside, t);
      NewestBetween(sw, cpu, from, to, t, k);
      if k > 0 { assert SwitchTs(inside[0]) <= SwitchTs(inside[k - 1]); }
    }
    SumTicks(sw, cpu, from, to, known, tids);
  }

  lemma {:induction false} CountUpTo(inside: seq<SwitchRec>, t: int) returns (k: nat)
    requires TimeOrdered(inside, SwitchTs)
    ensures k <= |inside| && (k > 0 ==> inside[k - 1].ts <= t) && (k < |inside| ==> t < inside[k].ts)
  {
    k := |inside|;
    while k > 0 && t < inside[k - 1].ts
      invariant k <= |inside| && (k < |inside| ==> t < inside[k].ts)
    {
      k := k - 1;
    }
  }

  lemma {:induction false} SumTicks(sw: seq<SwitchRec>, cpu: nat, from: int, to: int, known: int, tids: set<nat>)
    requires from <= to && from <= known
    requires forall t :: from <= t < to ==> (NewestOn(sw, cpu, t).Some? <==> known <= t)
    requires forall t, tid :: from <= t < to && Occupies(sw, cpu, t, tid) ==> tid in tids
    ensures Sum(tids, TicksIn(sw, cpu, from, to)) == Max(to - known, 0)
    decreases (to - from)
  {
    var f := TicksIn(sw, cpu, from, to);
    if from == to {
      SumZero(tids, f);
    } else {
      var g := TicksIn(sw, cpu, from, to - 1);
      SumTicks(sw, cpu, from, to - 1, known, tids);
      var s := NewestOn(sw, cpu, to - 1);
      if s.Some? {
        var tid := s.value.newTid;
        assert Occupies(sw, cpu, to - 1, tid);
        SumTake(tids, f, tid);
        SumTake(tids, g, tid);
        SumSame(tids - {tid}, f, g);
      } else {
        SumSame(tids, f, g);
      }
    }
  }
}
