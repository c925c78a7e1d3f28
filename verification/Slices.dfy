/** Telling interrupt work spread over a stall from a burst somewhere in it, by counting the tenths
    of the stall that saw any start. */
module Slices {
  import opened Trace

  const SLICES: nat := 10
  const MIN_DPCS: nat := 10

  predicate InWindow(start: int, end: int, t: int) { start <= t <= end }

  function Length(start: int, end: int): int { Max(end - start, 1) }

  /** The slice a start falls in; the very end belongs to the last one. */
  function Slot(start: int, end: int, t: int): nat
    requires InWindow(start, end, t)
  {
    Min((t - start) * SLICES / Length(start, end), SLICES - 1)
  }

  /** The slices at least one start falls in. */
  ghost function Hit(start: int, end: int, starts: seq<int>): set<nat> {
    set i | 0 <= i < |starts| && InWindow(start, end, starts[i]) :: Slot(start, end, starts[i])
  }

  lemma HitNext(start: int, end: int, starts: seq<int>, k: nat)
    requires k < |starts|
    ensures Hit(start, end, starts[..k + 1])
      == if InWindow(start, end, starts[k]) then Hit(start, end, starts[..k]) + {Slot(start, end, starts[k])}
         else Hit(start, end, starts[..k])
  {
    var before, after := starts[..k], starts[..k + 1];
    assert after == before + [starts[k]];
    forall n ensures n in Hit(start, end, after) <==>
      n in Hit(start, end, before) || (InWindow(start, end, starts[k]) && n == Slot(start, end, starts[k]))
    {
      if n in Hit(start, end, before) {
        var i :| 0 <= i < |before| && InWindow(start, end, before[i]) && n == Slot(start, end, before[i]);
        assert after[i] == before[i];
      }
      assert after[k] == starts[k];
    }
  }

  lemma HitBounded(start: int, end: int, starts: seq<int>)
    ensures forall n :: n in Hit(start, end, starts) ==> n < SLICES
  {}

  method SlicesCovered(start: int, end: int, starts: seq<int>) returns (covered: nat)
    ensures covered == |Hit(start, end, starts)| <= SLICES
  {
    var len := Length(start, end);
    var hit := new bool[SLICES](_ => false);
    for k := 0 to |starts|
      invariant hit.Length == SLICES
      invariant forall n :: 0 <= n < SLICES ==> (hit[n] <==> n in Hit(start, end, starts[..k]))
    {
      HitNext(start, end, starts, k);
      var t := starts[k];
      if t >= start && t <= end {
        var slot := (t - start) * SLICES / len;
        hit[Min(slot, SLICES - 1)] := true;
      }
    }
    assert starts[..|starts|] == starts;
    HitBounded(start, end, starts);
    covered := CountTrue(hit, Hit(start, end, starts));
  }

  method CountTrue(hit: array<bool>, ghost those: set<nat>) returns (count: nat)
    requires forall n :: n in those <==> 0 <= n < hit.Length && hit[n]
    ensures count == |those| <= hit.Length
  {
    count := 0;
    ghost var seen: set<nat> := {};
    for n := 0 to hit.Length
      invariant count == |seen| <= n
      invariant forall k :: k in seen <==> k in those && k < n
    {
      if hit[n] {
        count := count + 1;
        seen := seen + {n};
      }
    }
    assert seen == those;
  }

  /** At least ten calls, in at least six tenths of the slices. */
  predicate DpcsKeptRunning(covered: nat, total: nat) {
    total >= MIN_DPCS && covered * 10 >= SLICES * 6
  }

  lemma DivBounds(a: int, len: int)
    requires 0 <= a && 0 < len
    ensures a / len * len <= a < (a / len + 1) * len
  {}

  /** A start falls in the tenth of the stall it lies in, one at the very end in the last. */
  lemma SlotMeaning(start: int, end: int, t: int)
    requires InWindow(start, end, t)
    ensures var (n, len) := (Slot(start, end, t), if start < end then end - start else 1);
      n <= 9 && n * len <= (t - start) * 10 && (n < 9 ==> (t - start) * 10 < (n + 1) * len)
  {
    var a, len := (t - start) * 10, Length(start, end);
    DivBounds(a, len);
    if a / len >= 9 {
      MulGrows(9, a / len, len);
    }
  }

  lemma MulGrows(x: nat, y: nat, len: int)
    requires x <= y && 0 < len
    ensures x * len <= y * len
  {}

  /** `t` lies in the stall, and in its tenth `n`, the very end in the last. */
  ghost predicate InTenth(start: int, end: int, t: int, n: nat) {
    var len := if start < end then end - start else 1;
    start <= t <= end && n <= 9 && n * len <= (t - start) * 10 && (n < 9 ==> (t - start) * 10 < (n + 1) * len)
  }

  lemma SlotExactly(start: int, end: int, t: int, n: nat)
    ensures InTenth(start, end, t, n) <==> InWindow(start, end, t) && n == Slot(start, end, t)
  {
    if InWindow(start, end, t) {
      var m, len := Slot(start, end, t), Length(start, end);
      SlotMeaning(start, end, t);
      if n < m {
        MulGrows(n + 1, m, len);
      } else if m < n {
        MulGrows(m + 1, n, len);
      }
    }
  }

  /** A tenth counts as covered exactly when some start lies in it. */
  lemma HitExactly(start: int, end: int, starts: seq<int>, n: nat)
    ensures n in Hit(start, end, starts) <==> exists t :: t in starts && InTenth(start, end, t, n)
  {
    forall t ensures InTenth(start, end, t, n) <==> InWindow(start, end, t) && n == Slot(start, end, t) {
      SlotExactly(start, end, t, n);
    }
    if t :| t in starts && InTenth(start, end, t, n) {
      var i :| 0 <= i < |starts| && starts[i] == t;
      assert InWindow(start, end, starts[i]) && n == Slot(start, end, starts[i]);
    }
  }

  /** The calls are said to have kept running exactly when there were ten of them and six tenths saw one. */
  lemma KeptRunningExactly(start: int, end: int, starts: seq<int>, total: nat)
    ensures DpcsKeptRunning(|Hit(start, end, starts)|, total) <==> total >= 10 && |Hit(start, end, starts)| >= 6
  {}

  /** More starts never cover fewer slices. */
  lemma CoverageGrows(start: int, end: int, few: seq<int>, many: seq<int>)
    requires forall t :: t in few ==> t in many
    ensures |Hit(start, end, few)| <= |Hit(start, end, many)|
  {
    var a, b := Hit(start, end, few), Hit(start, end, many);
    forall n | n in a ensures n in b {
      var i :| 0 <= i < |few| && InWindow(start, end, few[i]) && n == Slot(start, end, few[i]);
      assert few[i] in many;
      var j :| 0 <= j < |many| && many[j] == few[i];
    }
    assert |b - a| == |b| - |a| by { assert a <= b; }
  }

  // ---- The spread guarantee ---------------------------------------------------------------------

  /** Two starts inside the window, further apart than this many tenths of its length. */
  ghost predicate SpreadBeyond(start: int, end: int, starts: seq<int>, tenths: nat) {
    exists a, b :: a in starts && b in starts && InWindow(start, end, a) && InWindow(start, end, b)
      && (b - a) * SLICES > tenths * Length(start, end)
  }

  /** Several numbers are at least that many apart, less one. */
  lemma {:induction false} SpreadOf(s: set<nat>) returns (low: nat, high: nat)
    requires s != {}
    ensures low in s && high in s && high - low >= |s| - 1
    ensures forall n :: n in s ==> low <= n <= high
    decreases |s|
  {
    var n :| n in s;
    low, high := n, n;
    if s != {n} {
      var rest := s - {n};
      low, high := SpreadOf(rest);
      InARange(rest + {n}, Min(low, n), Max(high, n));
      assert rest + {n} == s;
      low, high := Min(low, n), Max(high, n);
    }
  }

  lemma {:induction false} InARange(s: set<nat>, low: nat, high: nat)
    requires low <= high && forall n :: n in s ==> low <= n <= high
    ensures |s| <= high - low + 1
    decreases high - low
  {
    var rest := s - {high};
    if low == high {
      assert rest == {};
    } else {
      InARange(rest, low, high - 1);
    }
    assert s <= rest + {high};
    assert |s| <= |rest| + 1;
  }

  lemma SlotsApart(start: int, end: int, a: int, b: int, tenths: nat)
    requires InWindow(start, end, a) && InWindow(start, end, b)
    requires Slot(start, end, b) >= Slot(start, end, a) + tenths + 1
    ensures (b - a) * SLICES > tenths * Length(start, end)
  {
    var len := Length(start, end);
    FloorBounds((a - start) * SLICES, len);
    FloorBounds((b - start) * SLICES, len);
    var qa, qb := (a - start) * SLICES / len, (b - start) * SLICES / len;
    assert qb >= qa + tenths + 1;
    AtLeast(qb, qa + 1 + tenths, len);
    assert (qa + 1 + tenths) * len == (qa + 1) * len + tenths * len;
  }

  lemma FloorBounds(x: int, len: int)
    requires len > 0
    ensures x / len * len <= x < (x / len + 1) * len
  {}

  lemma AtLeast(a: int, b: int, len: int)
    requires a >= b && len >= 0
    ensures a * len >= b * len
  {}

  /** Covering this many slices puts two starts that far apart. */
  lemma CoverageSpreads(start: int, end: int, starts: seq<int>, tenths: nat)
    requires |Hit(start, end, starts)| >= tenths + 2
    ensures SpreadBeyond(start, end, starts, tenths)
  {
    var low, high := SpreadOf(Hit(start, end, starts));
    var i :| 0 <= i < |starts| && InWindow(start, end, starts[i]) && low == Slot(start, end, starts[i]);
    var j :| 0 <= j < |starts| && InWindow(start, end, starts[j]) && high == Slot(start, end, starts[j]);
    SlotsApart(start, end, starts[i], starts[j], tenths);
  }

  /** No burst can pass for calls that kept running: they reach over more than four tenths of the
      stall, whatever the total the slices are judged with. */
  lemma KeptRunningSpreads(start: int, end: int, starts: seq<int>, total: nat)
    requires DpcsKeptRunning(|Hit(start, end, starts)|, total)
    ensures SpreadBeyond(start, end, starts, 4)
  {
    CoverageSpreads(start, end, starts, 4);
  }
}
