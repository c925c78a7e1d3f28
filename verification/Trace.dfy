/** The trace records every other module reads, and the clock they are stamped with.

    Timestamps and durations are counter ticks, as mathematical integers. */
module Trace {

  datatype Option<+T> = None | Some(value: T)

  /** The performance counter's ticks per second; any counter of at least 1 kHz will do. */
  type Frequency = f: int | 1000 <= f witness 10_000_000

  const FREQ: Frequency

  // Durations in ticks are `milliseconds * FREQ / 1000`, rounded down.

  /** One millisecond: the slop of a window search and the least "on time". */
  const MS: nat := FREQ / 1000
  /** How far back the two scheduler rings reach: 6 s. */
  const SWITCH_KEEP: nat := FREQ * 6

  // The range of the source's machine integers, where it matters.
  const I64_MIN: int := -0x8000_0000_0000_0000
  const I64_MAX: int := 0x7FFF_FFFF_FFFF_FFFF

  const IDLE_TID: nat := 0

  const STATE_READY := 1
  const STATE_STANDBY := 3
  const STATE_TERMINATED := 4
  const STATE_WAITING := 5
  const STATE_DEFERRED_READY := 7

  /** A context switch: `newTid` got the processor, `oldTid` lost it. */
  datatype SwitchRec = SwitchRec(
    ts: int, cpu: nat, newTid: nat, newPrio: int, oldTid: nat, oldState: int, oldReason: int)

  /** A thread made runnable. Bit 0 of `flag` says a DPC did it. */
  datatype ReadyRec = ReadyRec(ts: int, tid: nat, byTid: nat, flag: int) {
    /** Who is to be credited with the wake-up: no DPC, no idle thread, nobody waking itself. */
    function Waker(): Option<nat> {
      if flag % 2 == 0 && byTid != 0 && byTid != tid then Some(byTid) else None
    }
  }

  /** A completed disk request. */
  datatype IoRec = IoRec(end: int, dur: int, irp: nat, disk: nat, tid: nat)

  datatype StallKind = Kernel | Scheduler

  /** A late wake-up of a probe thread: due at `start`, awake at `end`. */
  datatype Stall = Stall(kind: StallKind, cpu: Option<nat>, start: int, end: int, minor: bool)

  function SwitchTs(s: SwitchRec): int { s.ts }

  function ReadyTs(r: ReadyRec): int { r.ts }

  function IoEnd(i: IoRec): int { i.end }

  function Max(a: int, b: int): int { if a < b then b else a }

  function Min(a: int, b: int): int { if a < b then a else b }

  function Abs(a: int): int { if a < 0 then -a else a }

  /** The later of two times, the first of which may not be known yet. */
  function LaterOf(a: Option<int>, b: int): Option<int> {
    Some(if a.Some? then Max(a.value, b) else b)
  }

  /** Waiting for something on purpose: sleeping, suspended, idle on a queue. */
  predicate VoluntaryWait(reason: int) {
    reason == 4 || reason == 11 || reason == 5 || reason == 12 || reason == 15 || reason == 22
  }

  predicate LockWait(reason: int) {
    reason == 21 || 26 <= reason <= 29 || reason == 34 || reason == 35
  }

  predicate DiskWait(reason: int) {
    reason == 0 || reason == 7 || reason == 2 || reason == 9 || reason == 19
  }

  ghost predicate TimeOrdered<T(!new)>(s: seq<T>, ts: T -> int) {
    forall i, j :: 0 <= i < j < |s| ==> ts(s[i]) <= ts(s[j])
  }

  /** The last of an ordered list is its latest. */
  lemma LastIsLatest<T(!new)>(s: seq<T>, ts: T -> int)
    requires TimeOrdered(s, ts) && s != []
    ensures TimeOrdered(s[..|s| - 1], ts)
    ensures forall x :: x in s <==> x in s[..|s| - 1] || x == s[|s| - 1]
    ensures forall x :: x in s ==> ts(x) <= ts(s[|s| - 1])
  {
    assert s == s[..|s| - 1] + [s[|s| - 1]];
    forall x | x in s ensures ts(x) <= ts(s[|s| - 1]) {
      var i :| 0 <= i < |s| && s[i] == x;
      assert i < |s| - 1 ==> ts(s[i]) <= ts(s[|s| - 1]);
    }
  }
}
