/** Keeping the event log readable: per subject a few events get lines of their own, the rest are
    folded into roll-ups, and only outliers break through. */
module Quiet {
  import opened Trace

  const SHOW_FIRST: nat := 3
  const OUTLIER_FACTOR: nat := 3

  datatype Rollup = Rollup(subject: string, count: nat, worst: int, note: string, since: int)

  datatype Subject = Subject(shown: nat, worstShown: nat, held: Option<Rollup>, lastRollup: int)

  const NEW_SUBJECT := Subject(0, 0, None, 0)

  type Subjects = map<string, Subject>

  function SubjectOf(subjects: Subjects, name: string): Subject {
    if name in subjects then subjects[name] else NEW_SUBJECT
  }

  /** Tripling, saturating like the source's machine integers. */
  function Tripled(w: nat): nat { Min(w * OUTLIER_FACTOR, I64_MAX) }

  predicate Shows(s: Subject, duration: int) {
    s.shown < SHOW_FIRST || duration >= Tripled(s.worstShown)
  }

  function OfferOne(s: Subject, name: string, duration: int, note: string, now: int): Subject {
    if Shows(s, duration) then
      s.(shown := s.shown + 1, worstShown := Max(s.worstShown, duration),
         lastRollup := if s.shown == 0 then now else s.lastRollup)
    else
      var held := if s.held.Some? then s.held.value else Rollup(name, 0, 0, "", now);
      s.(held := Some(if duration > held.worst then held.(count := held.count + 1, worst := duration, note := note)
                      else held.(count := held.count + 1)))
  }

  function Offered(subjects: Subjects, name: string, duration: int, note: string, now: int): Subjects {
    subjects[name := OfferOne(SubjectOf(subjects, name), name, duration, note, now)]
  }

  predicate IsDue(s: Subject, now: int, every: int) {
    s.held.Some? && now - s.lastRollup >= every
  }

  function SweepOne(s: Subject, now: int, every: int): Subject {
    if IsDue(s, now, every) then s.(held := None, lastRollup := now) else s
  }

  function Swept(subjects: Subjects, now: int, every: int): Subjects {
    map name | name in subjects :: SweepOne(subjects[name], now, every)
  }

  // ---- Oldest first, then by name ---------------------------------------------------------------

  predicate TextLe(a: string, b: string) {
    a == "" || (b != "" && (a[0] < b[0] || (a[0] == b[0] && TextLe(a[1..], b[1..]))))
  }

  predicate RollupLe(a: Rollup, b: Rollup) {
    a.since < b.since || (a.since == b.since && TextLe(a.subject, b.subject))
  }

  ghost predicate InTurn(s: seq<Rollup>) {
    forall i, j :: 0 <= i < j < |s| ==>
      s[i].since < s[j].since || (s[i].since == s[j].since && TextLe(s[i].subject, s[j].subject))
  }

  function Insert(s: seq<Rollup>, r: Rollup): seq<Rollup> {
    if s == [] || RollupLe(s[|s| - 1], r) then s + [r] else Insert(s[..|s| - 1], r) + [s[|s| - 1]]
  }

  function Sorted(s: seq<Rollup>): seq<Rollup> {
    if s == [] then [] else Insert(Sorted(s[..|s| - 1]), s[|s| - 1])
  }

  lemma {:induction false} TextTotal(a: string, b: string)
    ensures TextLe(a, b) || TextLe(b, a)
    ensures TextLe(a, b) && TextLe(b, a) ==> a == b
  {
    if a != "" && b != "" {
      TextTotal(a[1..], b[1..]);
      assert a == [a[0]] + a[1..] && b == [b[0]] + b[1..];
    }
  }

  lemma {:induction false} TextTransitive(a: string, b: string, c: string)
    requires TextLe(a, b) && TextLe(b, c)
    ensures TextLe(a, c)
  {
    if a != "" && a[0] == b[0] == c[0] {
      TextTransitive(a[1..], b[1..], c[1..]);
    }
  }

  lemma RollupOrder(a: Rollup, b: Rollup, c: Rollup)
    ensures RollupLe(a, b) || RollupLe(b, a)
    ensures RollupLe(a, b) && RollupLe(b, c) ==> RollupLe(a, c)
  {
    TextTotal(a.subject, b.subject);
    if TextLe(a.subject, b.subject) && TextLe(b.subject, c.subject) {
      TextTransitive(a.subject, b.subject, c.subject);
    }
  }

  lemma {:induction false} InsertMeaning(s: seq<Rollup>, r: Rollup)
    requires InTurn(s)
    ensures InTurn(Insert(s, r)) && |Insert(s, r)| == |s| + 1
    ensures forall x :: x in Insert(s, r) <==> x in s || x == r
  {
    if s != [] {
      var init, last := s[..|s| - 1], s[|s| - 1];
      assert s == init + [last];
      if RollupLe(last, r) {
        forall i | 0 <= i < |s| ensures RollupLe(s[i], r) {
          RollupOrder(s[i], last, r);
        }
      } else {
        InsertMeaning(init, r);
        RollupOrder(r, last, last);
        var rest := Insert(init, r);
        forall i | 0 <= i < |rest| ensures RollupLe(rest[i], last) {
          assert rest[i] in rest;
          BeforeLast(s, rest[i]);
        }
      }
    }
  }

  lemma BeforeLast(s: seq<Rollup>, x: Rollup)
    requires InTurn(s) && s != []
    ensures x in s[..|s| - 1] ==> RollupLe(x, s[|s| - 1])
  {}

  lemma {:induction false} SortedMeaning(s: seq<Rollup>)
    ensures InTurn(Sorted(s)) && |Sorted(s)| == |s|
    ensures forall x :: x in Sorted(s) <==> x in s
  {
    if s != [] {
      SortedMeaning(s[..|s| - 1]);
      InsertMeaning(Sorted(s[..|s| - 1]), s[|s| - 1]);
      assert s == s[..|s| - 1] + [s[|s| - 1]];
    }
  }

  /** Alphabetical: the shorter if the other begins with it, else the first difference decides. */
  lemma {:induction false} TextLeExactly(a: string, b: string)
    ensures TextLe(a, b) <==> a <= b || exists k: nat :: FirstSmaller(a, b, k)
  {
    if a != "" && b != "" {
      TextLeExactly(a[1..], b[1..]);
      assert a == [a[0]] + a[1..] && b == [b[0]] + b[1..];
      if a[0] < b[0] {
        assert FirstSmaller(a, b, 0);
      } else if a[0] == b[0] {
        if k: nat :| FirstSmaller(a[1..], b[1..], k) {
          assert a[..k + 1] == [a[0]] + a[1..][..k] && b[..k + 1] == [b[0]] + b[1..][..k];
          assert FirstSmaller(a, b, k + 1);
        }
        if k: nat :| FirstSmaller(a, b, k) {
          assert a[..k][1..] == a[1..][..k - 1] && b[..k][1..] == b[1..][..k - 1];
          assert FirstSmaller(a[1..], b[1..], k - 1);
        }
      } else {
        forall k: nat ensures !FirstSmaller(a, b, k) {
          SameFirst(a, b, k);
        }
      }
    }
  }

  lemma SameFirst(a: string, b: string, k: nat)
    ensures FirstSmaller(a, b, k) && k > 0 ==> a[0] == b[0]
  {
    if FirstSmaller(a, b, k) && k > 0 {
      assert a[..k][0] == b[..k][0];
    }
  }

  predicate FirstSmaller(a: string, b: string, k: nat) { k < |a| && k < |b| && a[..k] == b[..k] && a[k] < b[k] }

  /** Exactly the roll-ups that are due, one for each subject that has one, in turn. */
  ghost predicate DueOut(out: seq<Rollup>, subjects: Subjects, now: int, every: int) {
    && InTurn(out)
    && (forall r :: r in out <==> exists name :: name in subjects && IsDue(subjects[name], now, every) && r == subjects[name].held.value)
    && |out| == |set name | name in subjects && IsDue(subjects[name], now, every)|
  }

  class Quieter {
    var subjects: Subjects

    constructor ()
      ensures subjects == map[]
    {
      subjects := map[];
    }

    /** Counts one event of a subject and says whether the log shows it by itself; if not, it joins
        what the subject's next roll-up will report. */
    method Offer(name: string, duration: int, note: string, now: int) returns (shown: bool)
      modifies this
      ensures subjects == Offered(old(subjects), name, duration, note, now)
      ensures shown == Shows(SubjectOf(old(subjects), name), duration)
    {
      var s := SubjectOf(subjects, name);
      var outlier := s.shown >= SHOW_FIRST && duration >= Tripled(s.worstShown);
      if s.shown < SHOW_FIRST || outlier {
        if s.shown == 0 {
          s := s.(lastRollup := now);
        }
        s := s.(shown := s.shown + 1, worstShown := Max(s.worstShown, duration));
        subjects := subjects[name := s];
        return true;
      }
      var held := if s.held.Some? then s.held.value else Rollup(name, 0, 0, "", now);
      held := held.(count := held.count + 1);
      if duration > held.worst {
        held := held.(worst := duration, note := note);
      }
      subjects := subjects[name := s.(held := Some(held))];
      shown := false;
    }

    /** Takes the roll-ups that are due, oldest first; the map may be walked in any order. */
    method Due(now: int, every: int) returns (out: seq<Rollup>)
      modifies this
      ensures subjects == Swept(old(subjects), now, every)
      ensures DueOut(out, old(subjects), now, every)
    {
      ghost var before := subjects;
      var found: seq<Rollup> := [];
      var left := subjects.Keys;
      ghost var dues: set<string> := {};
      while left != {}
        invariant left <= before.Keys && subjects.Keys == before.Keys && dues <= before.Keys - left
        invariant forall name :: name in before ==>
          subjects[name] == if name in left then before[name] else SweepOne(before[name], now, every)
        invariant forall name :: name in before.Keys - left ==> (name in dues <==> IsDue(before[name], now, every))
        invariant forall r :: r in found <==> exists name :: name in dues && IsDue(before[name], now, every) && r == before[name].held.value
        invariant |found| == |dues|
        decreases left
      {
        var name :| name in left;
        left := left - {name};
        var s := subjects[name];
        if s.held.Some? && now - s.lastRollup >= every {
          found := found + [s.held.value];
          subjects := subjects[name := s.(held := None, lastRollup := now)];
          dues := dues + {name};
        }
      }
      SortedMeaning(found);
      out := Sorted(found);
      assert dues == set name | name in before && IsDue(before[name], now, every);
    }

    /** Empties every subject, due or not. */
    method Flush() returns (out: seq<Rollup>)
      modifies this
      ensures subjects == Swept(old(subjects), I64_MAX, 0) && DueOut(out, old(subjects), I64_MAX, 0)
      ensures (forall name :: name in old(subjects) ==> old(subjects)[name].lastRollup <= I64_MAX) ==>
        forall name :: name in subjects ==> subjects[name].held.None?
    {
      out := Due(I64_MAX, 0);
    }
  }

  // ---- Whole runs -------------------------------------------------------------------------------

  datatype Step =
    | Offer(name: string, duration: int, note: string, now: int)
    | Sweep(now: int, every: int)

  function Apply(subjects: Subjects, step: Step): Subjects {
    match step
    case Offer(name, duration, note, now) => Offered(subjects, name, duration, note, now)
    case Sweep(now, every) => Swept(subjects, now, every)
  }

  function After(run: seq<Step>): Subjects {
    if run == [] then map[] else Apply(After(run[..|run| - 1]), run[|run| - 1])
  }

  /** The subject's state after a run. */
  function At(run: seq<Step>, name: string): Subject { SubjectOf(After(run), name) }

  predicate OfferOf(step: Step, name: string) { step.Offer? && step.name == name }

  /** The last step of the run gives the subject a line of its own... */
  predicate ShowsLast(run: seq<Step>, name: string)
    requires run != []
  {
    var step := run[|run| - 1];
    OfferOf(step, name) && Shows(At(run[..|run| - 1], name), step.duration)
  }

  /** ...or folds one of its events... */
  predicate FoldsLast(run: seq<Step>, name: string)
    requires run != []
  {
    var step := run[|run| - 1];
    OfferOf(step, name) && !Shows(At(run[..|run| - 1], name), step.duration)
  }

  /** ...or emits its roll-up. */
  predicate EmitsLast(run: seq<Step>, name: string)
    requires run != []
  {
    var step := run[|run| - 1];
    step.Sweep? && IsDue(At(run[..|run| - 1], name), step.now, step.every)
  }

  function Offers(run: seq<Step>, name: string): nat {
    if run == [] then 0 else Offers(run[..|run| - 1], name) + if OfferOf(run[|run| - 1], name) then 1 else 0
  }

  function OwnLines(run: seq<Step>, name: string): nat {
    if run == [] then 0 else OwnLines(run[..|run| - 1], name) + if ShowsLast(run, name) then 1 else 0
  }

  function EmittedCount(run: seq<Step>, name: string): nat
    requires run != []
  {
    if EmitsLast(run, name) then At(run[..|run| - 1], name).held.value.count else 0
  }

  /** The counts of the roll-ups emitted for the subject. */
  function RolledUp(run: seq<Step>, name: string): nat {
    if run == [] then 0
    else RolledUp(run[..|run| - 1], name) + EmittedCount(run, name)
  }

  function HeldCount(s: Subject): nat { if s.held.Some? then s.held.value.count else 0 }

  lemma AtNext(run: seq<Step>, name: string)
    requires run != []
    ensures var step, before := run[|run| - 1], At(run[..|run| - 1], name);
      At(run, name) == match step
        case Offer(n, duration, note, now) => if n == name then OfferOne(before, n, duration, note, now) else before
        case Sweep(now, every) => SweepOne(before, now, every)
  {}

  /** Per subject, every event offered has a line of its own, is counted in an emitted roll-up, or
      is still held. */
  lemma {:induction false} OffersConserved(run: seq<Step>, name: string)
    ensures Offers(run, name) == OwnLines(run, name) + RolledUp(run, name) + HeldCount(At(run, name))
    ensures At(run, name).shown == OwnLines(run, name)
  {
    if run != [] {
      OffersConserved(run[..|run| - 1], name);
      AtNext(run, name);
    }
  }

  // ---- What a roll-up reports -------------------------------------------------------------------

  /** The events folded since the subject's last roll-up. */
  function Folded(run: seq<Step>, name: string): seq<Step> {
    if run == [] then []
    else if EmitsLast(run, name) then []
    else if FoldsLast(run, name) then Folded(run[..|run| - 1], name) + [run[|run| - 1]]
    else Folded(run[..|run| - 1], name)
  }

  /** A roll-up of these events: their number, the first one's time, and the worst duration above
      zero with the note of the first event that reached it. */
  ghost predicate Summarizes(r: Rollup, folded: seq<Step>, name: string) {
    && folded != [] && (forall i :: 0 <= i < |folded| ==> OfferOf(folded[i], name))
    && r.subject == name && r.count == |folded| && r.since == folded[0].now && r.worst >= 0
    && (forall i :: 0 <= i < |folded| ==> folded[i].duration <= r.worst)
    && (r.worst > 0 ==> exists i :: WorstAt(r, folded, i))
  }

  ghost predicate WorstAt(r: Rollup, folded: seq<Step>, i: int) {
    && 0 <= i < |folded| && folded[i].Offer? && folded[i].duration == r.worst && folded[i].note == r.note
    && forall j :: 0 <= j < i && folded[j].Offer? ==> folded[j].duration < r.worst
  }

  /** What is held - and so each roll-up, when it is emitted - is a summary of exactly the events
      folded since the last one; for positive durations `worst` is their maximum. */
  lemma {:induction false} RollupMeaning(run: seq<Step>, name: string)
    ensures var held := At(run, name).held;
      if held.Some? then Summarizes(held.value, Folded(run, name), name) else Folded(run, name) == []
  {
    if run != [] {
      var init, step := run[..|run| - 1], run[|run| - 1];
      RollupMeaning(init, name);
      AtNext(run, name);
      if FoldsLast(run, name) {
        FoldOne(At(init, name), Folded(init, name), name, step);
      }
    }
  }

  lemma FoldOne(s: Subject, folded: seq<Step>, name: string, step: Step)
    requires if s.held.Some? then Summarizes(s.held.value, folded, name) else folded == []
    requires OfferOf(step, name) && !Shows(s, step.duration)
    ensures var next := OfferOne(s, name, step.duration, step.note, step.now).held;
      next.Some? && Summarizes(next.value, folded + [step], name)
  {
    var next := OfferOne(s, name, step.duration, step.note, step.now).held.value;
    var all := folded + [step];
    if s.held.Some? && step.duration <= s.held.value.worst && s.held.value.worst > 0 {
      var i :| WorstAt(s.held.value, folded, i);
      assert WorstAt(next, all, i);
    } else if next.worst > 0 {
      assert WorstAt(next, all, |folded|);
    }
  }

  // ---- Roll-ups are spaced ----------------------------------------------------------------------

  /** When the subject's roll-up was last emitted. */
  function LastEmitted(run: seq<Step>, name: string): Option<int> {
    if run == [] then None
    else if EmitsLast(run, name) then Some(run[|run| - 1].now)
    else LastEmitted(run[..|run| - 1], name)
  }

  /** When the subject was first shown. */
  function FirstShown(run: seq<Step>, name: string): Option<int> {
    if run == [] then None
    else
      var before := FirstShown(run[..|run| - 1], name);
      if before.Some? then before else if ShowsLast(run, name) then Some(run[|run| - 1].now) else None
  }

  lemma {:induction false} LastRollupMeaning(run: seq<Step>, name: string)
    ensures var s := At(run, name);
      && (s.shown > 0 <==> FirstShown(run, name).Some?) && (s.held.Some? ==> s.shown > 0)
      && (s.shown > 0 ==> Some(s.lastRollup) == (if LastEmitted(run, name).Some? then LastEmitted(run, name) else FirstShown(run, name)))
      && (LastEmitted(run, name).Some? ==> s.shown > 0)
  {
    if run != [] {
      LastRollupMeaning(run[..|run| - 1], name);
      AtNext(run, name);
    }
  }

  /** A sweep emits a subject's roll-up exactly when something was folded since the last one and the
      period since that, or since the subject's first line, has gone by. */
  lemma RollupsWhenDue(run: seq<Step>, name: string)
    requires run != [] && run[|run| - 1].Sweep?
    ensures var init, step := run[..|run| - 1], run[|run| - 1];
      var since := if LastEmitted(init, name).Some? then LastEmitted(init, name) else FirstShown(init, name);
      && (Folded(init, name) != [] ==> since.Some?)
      && (EmitsLast(run, name) <==> Folded(init, name) != [] && step.now - since.value >= step.every)
  {
    RollupMeaning(run[..|run| - 1], name);
    LastRollupMeaning(run[..|run| - 1], name);
  }

  /** A roll-up comes at least one period after the subject's previous one, or after the subject
      first appeared. */
  lemma RollupsAreSpaced(run: seq<Step>, name: string)
    requires run != [] && EmitsLast(run, name)
    ensures var init, step := run[..|run| - 1], run[|run| - 1];
      var since := if LastEmitted(init, name).Some? then LastEmitted(init, name) else FirstShown(init, name);
      since.Some? && step.now - since.value >= step.every
  {
    LastRollupMeaning(run[..|run| - 1], name);
  }

  // ---- Which events get a line ------------------------------------------------------------------

  /** Step `i` gave the subject a line. */
  predicate ShownAt(run: seq<Step>, name: string, i: nat) { i < |run| && ShowsLast(run[..i + 1], name) }

  /** At least three times as long as every one of the subject's events shown so far, or as long as a
      machine integer allows. */
  ghost predicate OutlastsShown(run: seq<Step>, name: string, duration: int) {
    duration >= 0 && forall i: nat :: ShownAt(run, name, i) && run[i].Offer? ==> duration >= Min(3 * run[i].duration, I64_MAX)
  }

  lemma {:induction false} WorstShownIs(run: seq<Step>, name: string)
    ensures var worst := At(run, name).worstShown;
      && (forall i: nat :: ShownAt(run, name, i) && run[i].Offer? ==> run[i].duration <= worst)
      && (worst == 0 || exists i: nat :: ShownAt(run, name, i) && run[i].Offer? && run[i].duration == worst)
  {
    if run != [] {
      var init, n := run[..|run| - 1], |run| - 1;
      WorstShownIs(init, name);
      AtNext(run, name);
      forall i: nat | i < n ensures ShownAt(run, name, i) <==> ShownAt(init, name, i) {
        assert run[..i + 1] == init[..i + 1];
      }
      assert run[..n + 1] == run;
      var before, worst := At(init, name).worstShown, At(run, name).worstShown;
      if worst == before && before != 0 {
        var i: nat :| ShownAt(init, name, i) && init[i].Offer? && init[i].duration == before;
        assert ShownAt(run, name, i) && run[i].duration == worst;
      } else if worst != 0 {
        assert ShownAt(run, name, n) && run[n].duration == worst;
      }
    }
  }

  /** An event is shown by itself exactly when it is among its subject's first three to, or outlasts
      all of the subject's that did. */
  lemma ShownExactly(run: seq<Step>, name: string)
    requires run != [] && OfferOf(run[|run| - 1], name)
    ensures var init := run[..|run| - 1];
      ShowsLast(run, name) <==> OwnLines(init, name) < 3 || OutlastsShown(init, name, run[|run| - 1].duration)
  {
    var init, duration := run[..|run| - 1], run[|run| - 1].duration;
    OffersConserved(init, name);
    WorstShownIs(init, name);
    var worst := At(init, name).worstShown;
    if worst != 0 {
      var i: nat :| ShownAt(init, name, i) && init[i].Offer? && init[i].duration == worst;
    }
  }

  // ---- How many lines a subject can get ---------------------------------------------------------

  function Pow3(n: nat): nat { if n == 0 then 1 else 3 * Pow3(n - 1) }

  /** Positive, and short of the largest machine integer. */
  ghost predicate Ordinary(run: seq<Step>, name: string) {
    forall i :: 0 <= i < |run| && OfferOf(run[i], name) ==> 0 < run[i].duration < I64_MAX
  }

  ghost predicate SomeOffer(run: seq<Step>, name: string, duration: int) {
    exists i :: 0 <= i < |run| && OfferOf(run[i], name) && run[i].duration == duration
  }

  lemma {:induction false} WorstShownGrows(run: seq<Step>, name: string)
    requires Ordinary(run, name)
    ensures var s := At(run, name);
      && (s.shown == 0 ==> s.worstShown == 0)
      && (s.shown > 0 ==> s.worstShown > 0 && SomeOffer(run, name, s.worstShown))
      && (s.shown >= SHOW_FIRST ==> Pow3(s.shown - SHOW_FIRST) <= s.worstShown)
  {
    if run != [] {
      var init, step := run[..|run| - 1], run[|run| - 1];
      assert forall i :: 0 <= i < |init| ==> run[i] == init[i];
      WorstShownGrows(init, name);
      AtNext(run, name);
      var before, s := At(init, name), At(run, name);
      if s.shown > 0 && s.worstShown == before.worstShown && before.shown > 0 {
        var i :| 0 <= i < |init| && OfferOf(init[i], name) && init[i].duration == before.worstShown;
        assert OfferOf(run[i], name) && run[i].duration == s.worstShown;
      } else if s.shown > 0 {
        assert OfferOf(run[|init|], name) && run[|init|].duration == s.worstShown;
      }
    }
  }

  /** A subject's lines are logarithmic in its worst duration: `3^(lines - 3)` never exceeds it, for
      durations that are positive and do not reach the largest machine integer. */
  lemma LinesAreLogarithmic(run: seq<Step>, name: string)
    requires Ordinary(run, name) && OwnLines(run, name) >= SHOW_FIRST
    ensures exists i :: 0 <= i < |run| && OfferOf(run[i], name) && Pow3(OwnLines(run, name) - SHOW_FIRST) <= run[i].duration
  {
    WorstShownGrows(run, name);
    OffersConserved(run, name);
    var i :| 0 <= i < |run| && OfferOf(run[i], name) && run[i].duration == At(run, name).worstShown;
  }

  /** The subject's first three lines are free of the bound; from then on it must hold. */
  ghost predicate Bounded(run: seq<Step>, name: string) {
    OwnLines(run, name) >= SHOW_FIRST ==>
      exists i :: 0 <= i < |run| && OfferOf(run[i], name) && Pow3(OwnLines(run, name) - SHOW_FIRST) <= run[i].duration
  }

  /** Every event of the subject lasted one of these lengths. */
  ghost predicate LengthsIn(run: seq<Step>, name: string, lengths: int -> bool) {
    forall i :: 0 <= i < |run| && OfferOf(run[i], name) ==> lengths(run[i].duration)
  }

  ghost predicate AlwaysBounded(name: string, lengths: int -> bool) {
    forall run: seq<Step> :: LengthsIn(run, name, lengths) ==> Bounded(run, name)
  }

  function Repeat(name: string, duration: int, n: nat): seq<Step> {
    if n == 0 then [] else Repeat(name, duration, n - 1) + [Offer(name, duration, "", 0)]
  }

  lemma {:induction false} FloodNext(run: seq<Step>, name: string, duration: int)
    requires duration == 0 || duration == I64_MAX || At(run, name).shown < SHOW_FIRST
    requires At(run, name).worstShown == (if At(run, name).shown == 0 then 0 else Max(duration, 0))
    ensures var next := At(run + [Offer(name, duration, "", 0)], name);
      next.shown == At(run, name).shown + 1 && next.worstShown == Max(duration, 0)
  {
    var next := run + [Offer(name, duration, "", 0)];
    assert next[..|run|] == run;
    AtNext(next, name);
    assert Shows(At(run, name), duration);
  }

  /** Events of no length, or of the largest machine length, are each shown, however many there are;
      so are the first three of any length. */
  lemma {:induction false} EndsAreFlooded(name: string, duration: int, n: nat)
    requires duration == 0 || duration == I64_MAX || n <= SHOW_FIRST
    ensures OwnLines(Repeat(name, duration, n), name) == n
    ensures At(Repeat(name, duration, n), name).worstShown == (if n == 0 then 0 else Max(duration, 0))
  {
    OffersConserved(Repeat(name, duration, n), name);
    if n > 0 {
      EndsAreFlooded(name, duration, n - 1);
      OffersConserved(Repeat(name, duration, n - 1), name);
      FloodNext(Repeat(name, duration, n - 1), name, duration);
    }
  }

  lemma {:induction false} RepeatLengths(name: string, duration: int, n: nat)
    ensures forall i :: 0 <= i < |Repeat(name, duration, n)| ==> Repeat(name, duration, n)[i] == Offer(name, duration, "", 0)
  {
    if n > 0 {
      RepeatLengths(name, duration, n - 1);
    }
  }

  lemma {:induction false} Pow3Grows(n: nat)
    ensures Pow3(n) > n
  {
    if n > 0 {
      Pow3Grows(n - 1);
    }
  }

  /** Enough events of a length that is not positive, or is the largest there is, break the bound. */
  lemma Breaks(name: string, duration: int) returns (run: seq<Step>)
    requires duration <= 0 || duration == I64_MAX
    ensures !Bounded(run, name) && forall i :: 0 <= i < |run| && OfferOf(run[i], name) ==> run[i].duration == duration
  {
    var n := if duration <= 0 then SHOW_FIRST else SHOW_FIRST + I64_MAX;
    run := Repeat(name, duration, n);
    EndsAreFlooded(name, duration, n);
    RepeatLengths(name, duration, n);
    Pow3Grows(n - SHOW_FIRST);
  }

  /** The bound holds of every run of events of these lengths exactly when every one of them is
      positive and short of the largest machine integer. */
  lemma AlwaysBoundedExactly(name: string, lengths: int -> bool)
    requires forall d :: lengths(d) ==> I64_MIN <= d <= I64_MAX
    ensures AlwaysBounded(name, lengths) <==> forall d :: lengths(d) ==> 0 < d < I64_MAX
  {
    if forall d :: lengths(d) ==> 0 < d < I64_MAX {
      forall run: seq<Step> | LengthsIn(run, name, lengths) ensures Bounded(run, name) {
        if OwnLines(run, name) >= SHOW_FIRST {
          LinesAreLogarithmic(run, name);
        }
      }
    }
    if d :| lengths(d) && !(0 < d < I64_MAX) {
      var run := Breaks(name, d);
      assert LengthsIn(run, name, lengths);
    }
  }
}
