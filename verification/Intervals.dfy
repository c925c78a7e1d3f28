/** Interval arithmetic on interrupt records: how long they cover, which samples fall inside them,
    and what each processor's samples come to. */
module Intervals {
  import opened Trace
  import opened Seqs

  type Span = (int, int)

  function SpanKey(s: Span): Key { s }

  // ---- The length of a union --------------------------------------------------------------------

  ghost function Range(a: int, b: int): set<int>
    decreases (b - a)
  {
    if a < b then Range(a, b - 1) + {b - 1} else {}
  }

  /** The ticks covered by some half-open interval. */
  ghost function Ticks(spans: seq<Span>): set<int> {
    if spans == [] then {}
    else Ticks(spans[..|spans| - 1]) + Range(spans[|spans| - 1].0, spans[|spans| - 1].1)
  }

  lemma {:induction false} RangeMeaning(a: int, b: int)
    ensures |Range(a, b)| == Max(b - a, 0)
    ensures forall t :: t in Range(a, b) <==> a <= t < b
    decreases (b - a)
  {
    if a < b {
      RangeMeaning(a, b - 1);
    }
  }

  lemma RangeWithin(a: int, b: int, c: int)
    requires a <= b
    ensures Range(b, c) <= Range(a, c)
  {
    RangeMeaning(a, c);
    RangeMeaning(b, c);
    forall t | t in Range(b, c) ensures t in Range(a, c) {}
  }

  ghost predicate CoveredBy(spans: seq<Span>, t: int) {
    exists s :: s in spans && s.0 <= t < s.1
  }

  lemma {:induction false} TicksMeaning(spans: seq<Span>)
    ensures forall t :: t in Ticks(spans) <==> CoveredBy(spans, t)
  {
    if spans != [] {
      var init, last := spans[..|spans| - 1], spans[|spans| - 1];
      TicksMeaning(init);
      RangeMeaning(last.0, last.1);
      assert forall s :: s in spans <==> s in init || s == last;
    }
  }

  /** `reach` is the furthest any interval so far goes, from a start at or before `from`. */
  ghost predicate Reaches(spans: seq<Span>, reach: int, from: int) {
    && (forall s :: s in spans ==> s.1 <= reach)
    && (reach == I64_MIN || exists s :: s in spans && s.1 == reach && s.0 <= from)
  }

  /** Below the reach everything the next interval covers is covered already; from it on, nothing is. */
  lemma BehindReach(spans: seq<Span>, s: Span, reach: int, t: int)
    requires Reaches(spans, reach, s.0) && I64_MIN <= s.0
    ensures CoveredBy(spans, t) ==> t < reach
    ensures s.0 <= t < reach ==> CoveredBy(spans, t)
  {
    if s.0 <= t < reach {
      var r :| r in spans && r.1 == reach && r.0 <= s.0;
      assert r.0 <= t < r.1;
    }
  }

  lemma DisjointSize(a: set<int>, b: set<int>, added: set<int>)
    requires added !! a && b <= a + added && added <= b
    ensures |a + b| == |a| + |added|
  {
    assert a + b == a + added;
  }

  /** The next interval in order adds exactly what lies beyond the reach. */
  lemma UnionNext(spans: seq<Span>, s: Span, reach: int)
    requires Reaches(spans, reach, s.0) && I64_MIN <= s.0
    ensures |Ticks(spans + [s])| == |Ticks(spans)| + Max(s.1 - Max(s.0, reach), 0)
  {
    var from := Max(s.0, reach);
    TicksMeaning(spans);
    RangeMeaning(s.0, s.1);
    RangeMeaning(from, s.1);
    forall t ensures t in Range(from, s.1) ==> t !in Ticks(spans)
      ensures t in Range(s.0, s.1) ==> t in Ticks(spans) || t in Range(from, s.1)
    {
      BehindReach(spans, s, reach, t);
    }
    RangeWithin(s.0, from, s.1);
    DisjointSize(Ticks(spans), Range(s.0, s.1), Range(from, s.1));
    TicksSnoc(spans, s);
  }

  lemma TicksSnoc(spans: seq<Span>, s: Span)
    ensures Ticks(spans + [s]) == Ticks(spans) + Range(s.0, s.1)
  {
    assert (spans + [s])[..|spans|] == spans;
  }

  /** The ticks covered do not depend on the order of the intervals. */
  lemma TicksSame(a: seq<Span>, b: seq<Span>)
    requires forall s :: s in a <==> s in b
    ensures Ticks(a) == Ticks(b)
  {
    TicksMeaning(a);
    TicksMeaning(b);
    forall t ensures t in Ticks(a) <==> t in Ticks(b) {
      assert CoveredBy(a, t) <==> CoveredBy(b, t);
    }
  }

  /** `reach` is the furthest end so far. */
  ghost predicate Furthest(spans: seq<Span>, reach: int) {
    && (forall s :: s in spans ==> s.1 <= reach)
    && (reach == I64_MIN || exists s :: s in spans && s.1 == reach)
  }

  lemma FurthestSnoc(spans: seq<Span>, reach: int, s: Span)
    requires Furthest(spans, reach)
    ensures Furthest(spans + [s], Max(reach, s.1))
  {
    assert s in spans + [s];
    if reach != I64_MIN {
      var r :| r in spans && r.1 == reach;
      assert r in spans + [s];
    }
  }

  /** The next interval in order starts no earlier than the one that reaches furthest. */
  lemma ReachNext(sorted: seq<Span>, i: nat, reach: int)
    requires SortedBy(sorted, SpanKey) && i < |sorted| && Furthest(sorted[..i], reach)
    ensures Reaches(sorted[..i], reach, sorted[i].0)
  {
    if reach != I64_MIN {
      var s :| s in sorted[..i] && s.1 == reach;
      var k :| 0 <= k < i && sorted[k] == s;
      assert KeyLe(SpanKey(sorted[k]), SpanKey(sorted[i]));
    }
  }

  lemma SweepStep(sorted: seq<Span>, i: nat, reach: int)
    requires SortedBy(sorted, SpanKey) && i < |sorted| && Furthest(sorted[..i], reach) && I64_MIN <= sorted[i].0
    ensures Furthest(sorted[..i + 1], Max(reach, sorted[i].1))
    ensures |Ticks(sorted[..i + 1])|
         == |Ticks(sorted[..i])| + Max(sorted[i].1 - Max(sorted[i].0, reach), 0)
  {
    assert sorted[..i + 1] == sorted[..i] + [sorted[i]];
    ReachNext(sorted, i, reach);
    UnionNext(sorted[..i], sorted[i], reach);
    FurthestSnoc(sorted[..i], reach, sorted[i]);
  }

  /** The exact number of ticks covered by nested, overlapping, empty or inverted intervals. */
  method UnionLen(spans: seq<Span>) returns (covered: int)
    requires forall s :: s in spans ==> I64_MIN <= s.0 && I64_MIN <= s.1
    ensures covered == |Ticks(spans)|
  {
    var sorted := SortBy(spans, SpanKey);
    SortByMeaning(spans, SpanKey);
    TicksSame(sorted, spans);
    covered := Sweep(sorted);
  }

  method Sweep(sorted: seq<Span>) returns (covered: int)
    requires SortedBy(sorted, SpanKey) && forall s :: s in sorted ==> I64_MIN <= s.0
    ensures covered == |Ticks(sorted)|
  {
    var reach := I64_MIN;
    covered := 0;
    for i := 0 to |sorted|
      invariant covered == |Ticks(sorted[..i])| && Furthest(sorted[..i], reach)
    {
      var (from, to) := sorted[i];
      SweepStep(sorted, i, reach);
      covered := covered + Max(to - Max(from, reach), 0);
      reach := Max(reach, to);
    }
    assert sorted[..|sorted|] == sorted;
  }

  // ---- Merged spans -----------------------------------------------------------------------------

  datatype ExecRec = ExecRec(cpu: nat, start: int, end: int)

  /** Some span, both ends included, contains the tick. */
  ghost predicate Inside(spans: seq<Span>, ts: int) {
    exists s :: s in spans && s.0 <= ts <= s.1
  }

  /** In order and apart: each ends before the next begins. */
  ghost predicate Apart(spans: seq<Span>) {
    forall a, b :: 0 <= a < b < |spans| ==> spans[a].0 <= spans[b].0 && spans[a].1 < spans[b].0
  }

  function OnCpu(cpu: nat): ExecRec -> bool { (e: ExecRec) => e.cpu == cpu }

  function SpansOf(execs: seq<ExecRec>): seq<Span> {
    seq(|execs|, i requires 0 <= i < |execs| => (execs[i].start, execs[i].end))
  }

  ghost predicate Interrupted(execs: seq<ExecRec>, cpu: nat, ts: int) {
    exists e :: e in execs && e.cpu == cpu && e.start <= ts <= e.end
  }

  lemma InsideNext(spans: seq<Span>, s: Span, ts: int)
    ensures Inside(spans + [s], ts) <==> Inside(spans, ts) || s.0 <= ts <= s.1
  {
    assert s in spans + [s];
    if x :| x in spans && x.0 <= ts <= x.1 {
      assert x in spans + [s];
    }
  }

  /** The next span in order, joined to the last one if it touches it. */
  function AddSpan(out: seq<Span>, s: Span): seq<Span> {
    if out != [] && s.0 <= out[|out| - 1].1 then
      out[..|out| - 1] + [(out[|out| - 1].0, Max(out[|out| - 1].1, s.1))]
    else out + [s]
  }

  /** No span merged so far begins after this one. */
  ghost predicate BeginsBy(out: seq<Span>, from: int) {
    out != [] ==> out[|out| - 1].0 <= from
  }

  lemma AddSpanApart(out: seq<Span>, s: Span)
    requires Apart(out) && BeginsBy(out, s.0)
    ensures Apart(AddSpan(out, s)) && AddSpan(out, s)[|AddSpan(out, s)| - 1].0 <= s.0
  {}

  ghost predicate SameTicks(a: seq<Span>, b: seq<Span>) {
    forall ts :: Inside(a, ts) <==> Inside(b, ts)
  }

  method MergedSpans(execs: seq<ExecRec>, cpu: nat) returns (out: seq<Span>)
    ensures Apart(out)
    ensures forall ts :: Inside(out, ts) <==> Interrupted(execs, cpu, ts)
  {
    var mine := Filter(execs, OnCpu(cpu));
    var spans := SortBy(SpansOf(mine), SpanKey);
    SortByMeaning(SpansOf(mine), SpanKey);
    out := MergeSorted(spans);
    forall ts ensures Inside(out, ts) <==> Interrupted(execs, cpu, ts) {
      InsideExecs(execs, mine, spans, cpu, ts);
    }
  }

  method MergeSorted(spans: seq<Span>) returns (out: seq<Span>)
    requires SortedBy(spans, SpanKey)
    ensures Apart(out) && SameTicks(out, spans)
  {
    out := [];
    for i := 0 to |spans|
      invariant Apart(out) && SameTicks(out, spans[..i])
      invariant i < |spans| ==> BeginsBy(out, spans[i].0)
    {
      var (from, to) := spans[i];
      AddSpanApart(out, spans[i]);
      MergeNext(out, spans, i);
      if out != [] && from <= out[|out| - 1].1 {
        var last := out[|out| - 1];
        out := out[..|out| - 1] + [(last.0, Max(last.1, to))];
      } else {
        out := out + [(from, to)];
      }
      assert i + 1 < |spans| ==> KeyLe(SpanKey(spans[i]), SpanKey(spans[i + 1]));
    }
    assert spans[..|spans|] == spans;
  }

  lemma MergeNext(out: seq<Span>, spans: seq<Span>, i: nat)
    requires i < |spans| && SameTicks(out, spans[..i]) && BeginsBy(out, spans[i].0)
    ensures SameTicks(AddSpan(out, spans[i]), spans[..i + 1])
  {
    assert spans[..i + 1] == spans[..i] + [spans[i]];
    forall ts ensures Inside(AddSpan(out, spans[i]), ts) <==> Inside(spans[..i + 1], ts) {
      InsideNext(spans[..i], spans[i], ts);
      MergeOne(out, spans[i], ts);
    }
  }

  lemma MergeOne(before: seq<Span>, s: Span, ts: int)
    requires BeginsBy(before, s.0)
    ensures Inside(AddSpan(before, s), ts) <==> Inside(before, ts) || s.0 <= ts <= s.1
  {
    if before != [] && s.0 <= before[|before| - 1].1 {
      var init, last := before[..|before| - 1], before[|before| - 1];
      assert before == init + [last];
      InsideNext(init, last, ts);
      InsideNext(init, (last.0, Max(last.1, s.1)), ts);
    } else {
      InsideNext(before, s, ts);
    }
  }

  lemma InsideExecs(execs: seq<ExecRec>, mine: seq<ExecRec>, spans: seq<Span>, cpu: nat, ts: int)
    requires mine == Filter(execs, OnCpu(cpu)) && forall s :: s in spans <==> s in SpansOf(mine)
    ensures Inside(spans, ts) <==> Interrupted(execs, cpu, ts)
  {
    FilterMembers(execs, OnCpu(cpu));
    if s :| s in spans && s.0 <= ts <= s.1 {
      var i :| 0 <= i < |SpansOf(mine)| && SpansOf(mine)[i] == s;
      assert mine[i] in execs && mine[i].cpu == cpu && mine[i].start <= ts <= mine[i].end by { assert mine[i] in mine; }
    }
    if e :| e in execs && e.cpu == cpu && e.start <= ts <= e.end {
      assert e in mine;
      var i :| 0 <= i < |mine| && mine[i] == e;
      assert SpansOf(mine)[i] in spans;
    }
  }

  /** Binary search for the last span starting at or before the tick: exact on spans that are apart,
      even when some of them are inverted. */
  method InSpans(spans: seq<Span>, ts: int) returns (hit: bool)
    requires Apart(spans)
    ensures hit <==> Inside(spans, ts)
  {
    var i := PartitionPoint(spans, (s: Span) => s.0 <= ts);
    hit := i > 0 && spans[i - 1].1 >= ts;
    if hit {
      assert spans[i - 1] in spans;
    }
    if s :| s in spans && s.0 <= ts <= s.1 {
      var k :| 0 <= k < |spans| && spans[k] == s;
      assert i < |spans| ==> !(i < k);
      assert k <= i - 1;
      assert k == i - 1;
    }
  }

  // ---- Core loads -------------------------------------------------------------------------------

  datatype SampleRec = SampleRec(ts: int, cpu: nat, tid: nat)

  datatype CoreLoad = CoreLoad(cpu: nat, samples: nat, idle: nat, interrupt: nat)

  ghost function On(cpu: nat): SampleRec -> bool { (s: SampleRec) => s.cpu == cpu }

  ghost function InInterrupt(execs: seq<ExecRec>, cpu: nat): SampleRec -> bool {
    (s: SampleRec) => s.cpu == cpu && Interrupted(execs, cpu, s.ts)
  }

  ghost function ReallyIdle(execs: seq<ExecRec>, cpu: nat): SampleRec -> bool {
    (s: SampleRec) => s.cpu == cpu && !Interrupted(execs, cpu, s.ts) && s.tid == IDLE_TID
  }

  ghost function OtherWork(execs: seq<ExecRec>, cpu: nat): SampleRec -> bool {
    (s: SampleRec) => s.cpu == cpu && !Interrupted(execs, cpu, s.ts) && s.tid != IDLE_TID
  }

  /** One processor's samples, split three ways: inside an interrupt record, idle outside any, and
      the rest. */
  ghost predicate Splits(l: CoreLoad, samples: seq<SampleRec>, execs: seq<ExecRec>) {
    && l.samples == |Filter(samples, On(l.cpu))|
    && l.interrupt == |Filter(samples, InInterrupt(execs, l.cpu))|
    && l.idle == |Filter(samples, ReallyIdle(execs, l.cpu))|
  }

  type Loads = map<nat, (seq<Span>, CoreLoad)>

  lemma SplitNext(l: CoreLoad, samples: seq<SampleRec>, execs: seq<ExecRec>, s: SampleRec)
    requires Splits(l, samples, execs)
    ensures Splits(
      if s.cpu != l.cpu then l
      else if Interrupted(execs, l.cpu, s.ts) then l.(samples := l.samples + 1, interrupt := l.interrupt + 1)
      else if s.tid == IDLE_TID then l.(samples := l.samples + 1, idle := l.idle + 1)
      else l.(samples := l.samples + 1), samples + [s], execs)
  {
    FilterSnoc(samples, s, On(l.cpu));
    FilterSnoc(samples, s, InInterrupt(execs, l.cpu));
    FilterSnoc(samples, s, ReallyIdle(execs, l.cpu));
  }

  lemma NoSamples(cpu: nat, samples: seq<SampleRec>, execs: seq<ExecRec>)
    requires forall s :: s in samples ==> s.cpu != cpu
    ensures Splits(CoreLoad(cpu, 0, 0, 0), samples, execs)
  {
    FilterNone(samples, On(cpu));
    FilterNone(samples, InInterrupt(execs, cpu));
    FilterNone(samples, ReallyIdle(execs, cpu));
  }

  /** One processor's entry: its merged spans, and the split of its samples so far. */
  ghost predicate Entry(e: (seq<Span>, CoreLoad), cpu: nat, samples: seq<SampleRec>, execs: seq<ExecRec>) {
    && Apart(e.0) && (forall ts :: Inside(e.0, ts) <==> Interrupted(execs, cpu, ts))
    && e.1.cpu == cpu && Splits(e.1, samples, execs)
  }

  /** Each processor seen so far, and no other, has an entry. */
  ghost predicate LoadsOf(table: Loads, samples: seq<SampleRec>, execs: seq<ExecRec>) {
    forall cpu: nat :: HasEntry(table, samples, execs, cpu)
  }

  ghost predicate HasEntry(table: Loads, samples: seq<SampleRec>, execs: seq<ExecRec>, cpu: nat) {
    && (cpu in table <==> Seen(samples, cpu))
    && (cpu in table ==> Entry(table[cpu], cpu, samples, execs))
  }

  ghost predicate Seen(samples: seq<SampleRec>, cpu: nat) {
    exists s :: s in samples && s.cpu == cpu
  }

  /** The entry a sample on this processor is counted under. */
  method FindEntry(table: Loads, ghost seen: seq<SampleRec>, execs: seq<ExecRec>, cpu: nat) returns (e: (seq<Span>, CoreLoad))
    requires HasEntry(table, seen, execs, cpu)
    ensures Entry(e, cpu, seen, execs)
  {
    if cpu in table {
      e := table[cpu];
    } else {
      var spans := MergedSpans(execs, cpu);
      assert forall s :: s in seen ==> s.cpu != cpu;
      NoSamples(cpu, seen, execs);
      e := (spans, CoreLoad(cpu, 0, 0, 0));
    }
  }

  method CountSample(e: (seq<Span>, CoreLoad), ghost seen: seq<SampleRec>, ghost execs: seq<ExecRec>, s: SampleRec)
    returns (e': (seq<Span>, CoreLoad))
    requires Entry(e, s.cpu, seen, execs)
    ensures Entry(e', s.cpu, seen + [s], execs)
  {
    SplitNext(e.1, seen, execs, s);
    var load := e.1.(samples := e.1.samples + 1);
    var hit := InSpans(e.0, s.ts);
    if hit {
      load := load.(interrupt := load.interrupt + 1);
    } else if s.tid == IDLE_TID {
      load := load.(idle := load.idle + 1);
    }
    e' := (e.0, load);
  }

  lemma SeenNext(seen: seq<SampleRec>, s: SampleRec, cpu: nat)
    ensures Seen(seen + [s], cpu) <==> Seen(seen, cpu) || cpu == s.cpu
  {
    assert s in seen + [s];
    assert forall x :: x in seen ==> x in seen + [s];
  }

  lemma LoadsNext(table: Loads, seen: seq<SampleRec>, execs: seq<ExecRec>, s: SampleRec, e: (seq<Span>, CoreLoad))
    requires LoadsOf(table, seen, execs) && Entry(e, s.cpu, seen + [s], execs)
    ensures LoadsOf(table[s.cpu := e], seen + [s], execs)
  {
    var table', seen' := table[s.cpu := e], seen + [s];
    forall cpu: nat ensures HasEntry(table', seen', execs, cpu) {
      SeenNext(seen, s, cpu);
      assert HasEntry(table, seen, execs, cpu);
      if cpu in table && cpu != s.cpu {
        SplitNext(table[cpu].1, seen, execs, s);
      }
    }
  }

  method CoreLoads(samples: seq<SampleRec>, execs: seq<ExecRec>) returns (out: seq<CoreLoad>)
    ensures forall a, b :: 0 <= a < b < |out| ==> out[a].cpu < out[b].cpu
    ensures forall l :: l in out ==> Splits(l, samples, execs) && Seen(samples, l.cpu)
    ensures forall cpu: nat :: Seen(samples, cpu) ==> exists l :: l in out && l.cpu == cpu
  {
    var table: Loads := map[];
    for i := 0 to |samples|
      invariant LoadsOf(table, samples[..i], execs)
    {
      assert samples[..i + 1] == samples[..i] + [samples[i]];
      var s := samples[i];
      var found := FindEntry(table, samples[..i], execs, s.cpu);
      var e := CountSample(found, samples[..i], execs, s);
      LoadsNext(table, samples[..i], execs, s, e);
      table := table[s.cpu := e];
    }
    assert samples[..|samples|] == samples;
    forall cpu: nat ensures cpu in table <==> Seen(samples, cpu)
      ensures cpu in table ==> Entry(table[cpu], cpu, samples, execs)
    {
      assert HasEntry(table, samples, execs, cpu);
    }
    out := ByCpu(table);
    forall cpu: nat | cpu in table ensures exists l :: l in out && l.cpu == cpu {
      assert table[cpu].1 in out;
    }
  }

  /** The loads, lowest processor first, out of a map walked in any order. */
  method ByCpu(table: Loads) returns (out: seq<CoreLoad>)
    requires forall cpu :: cpu in table ==> table[cpu].1.cpu == cpu
    ensures forall a, b :: 0 <= a < b < |out| ==> out[a].cpu < out[b].cpu
    ensures forall l :: l in out <==> l.cpu in table && l == table[l.cpu].1
  {
    var all: seq<CoreLoad> := [];
    var left := table.Keys;
    while left != {}
      invariant left <= table.Keys
      invariant forall l :: l in all <==> l.cpu in table && l.cpu !in left && l == table[l.cpu].1
      invariant forall a, b :: 0 <= a < b < |all| ==> all[a].cpu != all[b].cpu
      decreases left
    {
      var cpu :| cpu in left;
      left := left - {cpu};
      forall a | 0 <= a < |all| ensures all[a].cpu != cpu { assert all[a] in all; }
      all := all + [table[cpu].1];
    }
    SortByMeaning(all, CpuKey);
    SortedStrictly(all, CpuKey);
    out := SortBy(all, CpuKey);
    forall a, b | 0 <= a < b < |out| ensures out[a].cpu < out[b].cpu {
      assert KeyLe(CpuKey(out[a]), CpuKey(out[b]));
    }
  }

  function CpuKey(l: CoreLoad): Key { (l.cpu, l.cpu) }

  /** The three parts make up all of a processor's samples. */
  lemma {:induction false} PartsMakeTheWhole(samples: seq<SampleRec>, execs: seq<ExecRec>, cpu: nat)
    ensures |Filter(samples, InInterrupt(execs, cpu))| + |Filter(samples, ReallyIdle(execs, cpu))|
      + |Filter(samples, OtherWork(execs, cpu))| == |Filter(samples, On(cpu))|
  {
    if samples != [] {
      PartsMakeTheWhole(samples[..|samples| - 1], execs, cpu);
    }
  }
}
