/** The analyzer's step: late wake-ups are clustered, the two probes' reports of one event paired,
    and each group analyzed once it is ripe or held for a later step. */
module Ticking {
  import opened Trace
  import opened Seqs

  const GAP: nat := FREQ / 500           // 2 ms
  const TWIN_SLACK: nat := FREQ / 40     // 25 ms
  const TWIN_WAIT: nat := FREQ / 2       // 500 ms
  const CAUGHT_UP: nat := FREQ / 20      // 50 ms
  const RIPE_AFTER: nat := FREQ * 3 / 10 // 300 ms
  const GIVE_UP: nat := FREQ * 4         // 4 s
  const MINOR_KEEP: nat := FREQ * 30     // 30 s

  function StallKey(s: Stall): Key { (if s.kind.Kernel? then 0 else 1, s.start) }

  // ---- Clusters ---------------------------------------------------------------------------------

  function MaxEnd(c: seq<Stall>): int
    requires c != []
  {
    if |c| == 1 then c[0].end else Max(MaxEnd(c[..|c| - 1]), c[|c| - 1].end)
  }

  function MinStart(c: seq<Stall>): int
    requires c != []
  {
    if |c| == 1 then c[0].start else Min(MinStart(c[..|c| - 1]), c[|c| - 1].start)
  }

  /** The stall joins a cluster of its kind when it starts within the gap of its latest end. */
  predicate Joins(c: seq<Stall>, s: Stall) {
    c != [] && c[0].kind == s.kind && s.start <= MaxEnd(c) + GAP
  }

  /** Where the cluster of stall `k` begins. */
  function ClusterStart(s: seq<Stall>, k: nat): (b: nat)
    requires k < |s|
    ensures b <= k
  {
    if k == 0 then 0
    else
      var b := ClusterStart(s, k - 1);
      if Joins(s[b..k], s[k]) then b else k
  }

  function Clusters(s: seq<Stall>): seq<seq<Stall>> {
    if s == [] then []
    else
      var b := ClusterStart(s, |s| - 1);
      Clusters(s[..b]) + [s[b..]]
  }

  lemma SlicePrefix(s: seq<Stall>, t: seq<Stall>, a: nat, b: nat)
    requires a <= b <= |s|
    ensures (s + t)[a..b] == s[a..b]
  {}

  lemma {:induction false} ClusterStartPrefix(s: seq<Stall>, t: seq<Stall>, k: nat)
    requires k < |s|
    ensures ClusterStart(s + t, k) == ClusterStart(s, k)
  {
    if k > 0 {
      ClusterStartPrefix(s, t, k - 1);
      SlicePrefix(s, t, ClusterStart(s, k - 1), k);
    }
  }

  /** A cluster's stalls all begin where it does. */
  lemma {:induction false} ClusterStartTwice(s: seq<Stall>, k: nat, m: nat)
    requires k < |s| && ClusterStart(s, k) <= m <= k
    ensures ClusterStart(s, m) == ClusterStart(s, k)
  {
    if m < k {
      ClusterStartTwice(s, k - 1, m);
    }
  }

  /** Adding a stall extends the last cluster or opens a new one. */
  function AddStall(cs: seq<seq<Stall>>, x: Stall): seq<seq<Stall>> {
    if cs != [] && Joins(cs[|cs| - 1], x) then cs[..|cs| - 1] + [cs[|cs| - 1] + [x]] else cs + [[x]]
  }

  lemma {:induction false} ClustersLast(s: seq<Stall>)
    requires s != []
    ensures var b := ClusterStart(s, |s| - 1); Clusters(s) == Clusters(s[..b]) + [s[b..]]
  {}

  lemma AddToLast(before: seq<seq<Stall>>, last: seq<Stall>, x: Stall)
    ensures AddStall(before + [last], x) == if Joins(last, x) then before + [last + [x]] else before + [last] + [[x]]
  {
    assert (before + [last])[..|before|] == before;
  }

  lemma {:induction false} StartNext(s: seq<Stall>, x: Stall)
    requires s != []
    ensures var b := ClusterStart(s, |s| - 1);
      ClusterStart(s + [x], |s|) == if Joins(s[b..], x) then b else |s|
  {
    var b := ClusterStart(s, |s| - 1);
    ClusterStartPrefix(s, [x], |s| - 1);
    assert (s + [x])[b..|s|] == s[b..];
  }

  /** Where the last cluster begins, the list is cut. */
  lemma {:induction false} ClustersFrom(all: seq<Stall>, b: nat, before: seq<Stall>, last: seq<Stall>)
    requires all != [] && ClusterStart(all, |all| - 1) == b && all[..b] == before && all[b..] == last
    ensures Clusters(all) == Clusters(before) + [last]
  {}

  lemma {:induction false} ClustersJoin(s: seq<Stall>, x: Stall, b: nat)
    requires s != [] && ClusterStart(s, |s| - 1) == b && Joins(s[b..], x)
    ensures Clusters(s + [x]) == Clusters(s[..b]) + [s[b..] + [x]]
  {
    StartNext(s, x);
    assert (s + [x])[..b] == s[..b] && (s + [x])[b..] == s[b..] + [x];
    ClustersFrom(s + [x], b, s[..b], s[b..] + [x]);
  }

  lemma {:induction false} ClustersOpen(s: seq<Stall>, x: Stall)
    requires s != [] ==> !Joins(s[ClusterStart(s, |s| - 1)..], x)
    ensures Clusters(s + [x]) == Clusters(s) + [[x]]
  {
    if s != [] {
      StartNext(s, x);
    }
    assert (s + [x])[..|s|] == s;
    ClustersFrom(s + [x], |s|, s, [x]);
  }

  lemma {:induction false} ClustersNext(s: seq<Stall>, x: Stall)
    ensures Clusters(s + [x]) == AddStall(Clusters(s), x)
  {
    if s == [] {
      ClustersOpen(s, x);
    } else {
      var b := ClusterStart(s, |s| - 1);
      ClustersLast(s);
      AddToLast(Clusters(s[..b]), s[b..], x);
      if Joins(s[b..], x) {
        ClustersJoin(s, x, b);
      } else {
        ClustersOpen(s, x);
      }
    }
  }

  method ClusterUp(s: seq<Stall>) returns (cs: seq<seq<Stall>>)
    ensures cs == Clusters(s)
  {
    cs := [];
    for i := 0 to |s|
      invariant cs == Clusters(s[..i])
    {
      assert s[..i + 1] == s[..i] + [s[i]];
      ClustersNext(s[..i], s[i]);
      if cs != [] && Joins(cs[|cs| - 1], s[i]) {
        cs := cs[..|cs| - 1] + [cs[|cs| - 1] + [s[i]]];
      } else {
        cs := cs + [[s[i]]];
      }
    }
    assert s[..|s|] == s;
  }

  function Flat(cs: seq<seq<Stall>>): seq<Stall> {
    if cs == [] then [] else Flat(cs[..|cs| - 1]) + cs[|cs| - 1]
  }

  /** Clustering only cuts the list up. */
  lemma {:induction false} ClustersFlat(s: seq<Stall>)
    ensures Flat(Clusters(s)) == s
  {
    if s != [] {
      var b := ClusterStart(s, |s| - 1);
      ClustersFlat(s[..b]);
      ClustersLast(s);
      assert s == s[..b] + s[b..];
    }
  }

  // ---- Clusters are the connected components ----------------------------------------------------

  /** Same kind, and the later in the sorted order starts within the gap of the earlier's end. */
  predicate Linked(s: seq<Stall>, i: nat, j: nat)
    requires i < |s| && j < |s|
  {
    var lo, hi := s[Min(i, j)], s[Max(i, j)];
    lo.kind == hi.kind && hi.start <= lo.end + GAP
  }

  predicate Overlap(x: Stall, y: Stall) {
    x.kind == y.kind && x.start <= y.end + GAP && y.start <= x.end + GAP
  }

  /** For stalls that do not end before they start, that is overlap to within the gap. */
  lemma LinkedIsOverlap(s: seq<Stall>, i: nat, j: nat)
    requires SortedBy(s, StallKey) && i < j < |s| && s[i].start <= s[i].end && s[j].start <= s[j].end
    ensures Linked(s, i, j) <==> Overlap(s[i], s[j])
  {
    assert KeyLe(StallKey(s[i]), StallKey(s[j]));
  }

  /** A chain of linked stalls. */
  ghost predicate Chain(s: seq<Stall>, p: seq<nat>) {
    && p != [] && (forall t :: 0 <= t < |p| ==> p[t] < |s|)
    && forall t :: 0 < t < |p| ==> Linked(s, p[t - 1], p[t])
  }

  ghost predicate Connected(s: seq<Stall>, i: nat, j: nat) {
    exists p: seq<nat> :: Chain(s, p) && p[0] == i && p[|p| - 1] == j
  }

  lemma {:induction false} MaxEndReached(c: seq<Stall>) returns (m: nat)
    requires c != []
    ensures m < |c| && c[m].end == MaxEnd(c)
    ensures forall k :: 0 <= k < |c| ==> c[k].end <= MaxEnd(c)
  {
    if |c| == 1 {
      m := 0;
    } else {
      m := MaxEndReached(c[..|c| - 1]);
      if MaxEnd(c[..|c| - 1]) < c[|c| - 1].end {
        m := |c| - 1;
      }
    }
  }

  /** Every stall that does not begin its cluster is linked to an earlier one of it. */
  lemma LinkedBack(s: seq<Stall>, k: nat) returns (m: nat)
    requires SortedBy(s, StallKey) && k < |s| && ClusterStart(s, k) < k
    ensures ClusterStart(s, k) <= m < k && Linked(s, m, k)
  {
    var b := ClusterStart(s, k);
    var i := MaxEndReached(s[b..k]);
    m := b + i;
    assert s[b..k][i] == s[m];
    assert KeyLe(StallKey(s[b]), StallKey(s[m])) && KeyLe(StallKey(s[m]), StallKey(s[k]));
  }

  /** ...so the start of a cluster reaches each of its stalls. */
  lemma ReachFromStart(s: seq<Stall>, k: nat) returns (p: seq<nat>)
    requires SortedBy(s, StallKey) && k < |s|
    ensures Chain(s, p) && p[0] == ClusterStart(s, k) && p[|p| - 1] == k
    decreases k
  {
    if ClusterStart(s, k) == k {
      p := [k];
    } else {
      var m := LinkedBack(s, k);
      ClusterStartTwice(s, k, m);
      var q := ReachFromStart(s, m);
      p := q + [k];
    }
  }

  lemma {:induction false} Reverse(s: seq<Stall>, p: seq<nat>) returns (q: seq<nat>)
    requires Chain(s, p)
    ensures Chain(s, q) && q[0] == p[|p| - 1] && q[|q| - 1] == p[0]
  {
    if |p| == 1 {
      q := p;
    } else {
      var r := Reverse(s, p[1..]);
      q := r + [p[0]];
      assert r[|r| - 1] == p[1];
      assert Linked(s, p[0], p[1]);
    }
  }

  lemma Join(s: seq<Stall>, p: seq<nat>, q: seq<nat>)
    requires Chain(s, p) && Chain(s, q) && p[|p| - 1] == q[0]
    ensures Chain(s, p + q[1..])
  {
    var r := p + q[1..];
    forall t | 0 < t < |r| ensures Linked(s, r[t - 1], r[t]) {
      if t >= |p| {
        assert r[t] == q[t - |p| + 1] && r[t - 1] == q[t - |p|];
      }
    }
  }

  lemma EndsWithin(c: seq<Stall>, i: nat)
    requires i < |c|
    ensures c[i].end <= MaxEnd(c)
  {
    var reached := MaxEndReached(c);
  }

  lemma {:induction false} ClusterKind(s: seq<Stall>, k: nat, m: nat)
    requires k < |s| && ClusterStart(s, k) <= m <= k
    ensures s[m].kind == s[ClusterStart(s, k)].kind
  {
    if m < k {
      ClusterKind(s, k - 1, m);
    }
  }

  lemma SortedKinds(s: seq<Stall>, i: nat, j: nat, k: nat)
    requires SortedBy(s, StallKey) && i <= j <= k < |s| && s[i].kind == s[k].kind
    ensures s[j].kind == s[i].kind && s[j].start <= s[k].start
  {
    assert i < j ==> KeyLe(StallKey(s[i]), StallKey(s[j]));
    assert j < k ==> KeyLe(StallKey(s[j]), StallKey(s[k]));
  }

  lemma NotJoined(s: seq<Stall>, c: nat, m: nat)
    requires 0 < c < |s| && ClusterStart(s, c) == c && ClusterStart(s, c - 1) <= m < c && s[m].kind == s[c].kind
    ensures s[m].end + GAP < s[c].start
  {
    var b := ClusterStart(s, c - 1);
    ClusterKind(s, c - 1, m);
    EndsWithin(s[b..c], m - b);
    assert s[b..c][0] == s[b] && s[b..c][m - b] == s[m];
    assert !Joins(s[b..c], s[c]);
  }

  /** Nothing before a cluster's start reaches within the gap of it. */
  lemma {:induction false} StartSeparates(s: seq<Stall>, c: nat, m: nat)
    requires SortedBy(s, StallKey) && m < c < |s| && ClusterStart(s, c) == c && s[m].kind == s[c].kind
    ensures s[m].end + GAP < s[c].start
    decreases c
  {
    var b := ClusterStart(s, c - 1);
    if m >= b {
      NotJoined(s, c, m);
    } else {
      SortedKinds(s, m, b, c);
      ClusterStartTwice(s, c - 1, b);
      StartSeparates(s, b, m);
    }
  }

  lemma LinkedSameCluster(s: seq<Stall>, x: nat, y: nat)
    requires SortedBy(s, StallKey) && x < y < |s| && Linked(s, x, y)
    ensures ClusterStart(s, x) == ClusterStart(s, y)
  {
    var c := ClusterStart(s, y);
    if x < c {
      ClusterStartTwice(s, y, c);
      assert KeyLe(StallKey(s[x]), StallKey(s[c]));
      assert c < y ==> KeyLe(StallKey(s[c]), StallKey(s[y]));
      StartSeparates(s, c, x);
    }
    ClusterStartTwice(s, y, x);
  }

  lemma {:induction false} ChainSameCluster(s: seq<Stall>, p: seq<nat>)
    requires SortedBy(s, StallKey) && Chain(s, p)
    ensures ClusterStart(s, p[0]) == ClusterStart(s, p[|p| - 1])
  {
    if |p| > 1 {
      ChainSameCluster(s, p[1..]);
      var x, y := p[0], p[1];
      assert Linked(s, x, y);
      if x < y {
        LinkedSameCluster(s, x, y);
      } else if y < x {
        LinkedSameCluster(s, y, x);
      }
    }
  }

  /** How many stalls the clusters before `c` hold. */
  function Before(cs: seq<seq<Stall>>, c: nat): nat
    requires c <= |cs|
  {
    |Flat(cs[..c])|
  }

  /** Cluster `c` holds the stall at position `i` of the list. */
  predicate HoldsAt(cs: seq<seq<Stall>>, c: nat, i: nat) {
    c < |cs| && Before(cs, c) <= i < Before(cs, c) + |cs[c]|
  }

  ghost predicate Together(cs: seq<seq<Stall>>, i: nat, j: nat) {
    exists c: nat :: HoldsAt(cs, c, i) && HoldsAt(cs, c, j)
  }

  lemma HeldIn(init: seq<seq<Stall>>, last: seq<Stall>, n: nat, c: nat, i: nat)
    requires |Flat(init)| == n && c <= |init|
    ensures HoldsAt(init + [last], c, i) <==> if c < |init| then HoldsAt(init, c, i) else n <= i < n + |last|
    ensures Before(init + [last], c) == if c < |init| then Before(init, c) else n
  {
    assert (init + [last])[..c] == init[..c];
    assert init[..|init|] == init;
  }

  lemma {:induction false} StartBefore(s: seq<Stall>, b: nat, i: nat)
    requires i < b <= |s|
    ensures ClusterStart(s[..b], i) == ClusterStart(s, i)
  {
    assert s == s[..b] + s[b..];
    ClusterStartPrefix(s[..b], s[b..], i);
  }

  /** The clusters of a list: those before its last one, and that one. */
  lemma {:induction false} LastCut(s: seq<Stall>, b: nat)
    requires s != [] && ClusterStart(s, |s| - 1) == b
    ensures Clusters(s) == Clusters(s[..b]) + [s[b..]] && |Flat(Clusters(s[..b]))| == b
  {
    ClustersFlat(s[..b]);
  }

  lemma {:induction false} HeldStart(s: seq<Stall>, cs: seq<seq<Stall>>, c: nat, i: nat)
    requires cs == Clusters(s) && HoldsAt(cs, c, i)
    ensures i < |s| && ClusterStart(s, i) == Before(cs, c)
    decreases |s|
  {
    if s != [] {
      var b := ClusterStart(s, |s| - 1);
      var init := Clusters(s[..b]);
      LastCut(s, b);
      HeldIn(init, s[b..], b, c, i);
      if c == |init| {
        ClusterStartTwice(s, |s| - 1, i);
      } else {
        HeldStart(s[..b], init, c, i);
        StartBefore(s, b, i);
      }
    }
  }

  lemma TogetherSnoc(init: seq<seq<Stall>>, last: seq<Stall>, n: nat, i: nat, j: nat)
    requires |Flat(init)| == n
    requires Together(init, i, j) || (n <= i < n + |last| && n <= j < n + |last|)
    ensures Together(init + [last], i, j)
  {
    var c: nat :| c <= |init| && if c < |init| then HoldsAt(init, c, i) && HoldsAt(init, c, j)
      else n <= i < n + |last| && n <= j < n + |last|;
    HeldIn(init, last, n, c, i);
    HeldIn(init, last, n, c, j);
  }

  lemma {:induction false} SameSide(s: seq<Stall>, b: nat, i: nat, j: nat)
    requires i < |s| && j < |s| && ClusterStart(s, i) == ClusterStart(s, j) && ClusterStart(s, |s| - 1) == b
    ensures i < b <==> j < b
    ensures i < b && j < b ==> ClusterStart(s[..b], i) == ClusterStart(s[..b], j)
  {
    if i >= b {
      ClusterStartTwice(s, |s| - 1, i);
    }
    if j >= b {
      ClusterStartTwice(s, |s| - 1, j);
    }
    if i < b && j < b {
      StartBefore(s, b, i);
      StartBefore(s, b, j);
    }
  }

  lemma {:induction false} SameStartTogether(s: seq<Stall>, cs: seq<seq<Stall>>, i: nat, j: nat)
    requires i < |s| && j < |s| && ClusterStart(s, i) == ClusterStart(s, j) && cs == Clusters(s)
    ensures Together(cs, i, j)
    decreases |s|
  {
    var b := ClusterStart(s, |s| - 1);
    var init := Clusters(s[..b]);
    LastCut(s, b);
    SameSide(s, b, i, j);
    if j < b {
      SameStartTogether(s[..b], init, i, j);
    }
    TogetherSnoc(init, s[b..], b, i, j);
  }

  lemma StartsAreComponents(s: seq<Stall>, i: nat, j: nat)
    requires SortedBy(s, StallKey) && i < |s| && j < |s|
    ensures ClusterStart(s, i) == ClusterStart(s, j) <==> Connected(s, i, j)
  {
    if ClusterStart(s, i) == ClusterStart(s, j) {
      var p := ReachFromStart(s, i);
      var q := ReachFromStart(s, j);
      var r := Reverse(s, p);
      Join(s, r, q);
      var all := r + q[1..];
      assert all[0] == i;
      assert all[|all| - 1] == j by { if |q| == 1 { assert all == r; } }
    }
    if Connected(s, i, j) {
      var p: seq<nat> :| Chain(s, p) && p[0] == i && p[|p| - 1] == j;
      ChainSameCluster(s, p);
    }
  }

  /** The clusters are exactly the connected components of same-kind overlap within the gap. */
  lemma ClustersAreComponents(s: seq<Stall>, i: nat, j: nat)
    requires SortedBy(s, StallKey) && i < |s| && j < |s|
    ensures Together(Clusters(s), i, j) <==> Connected(s, i, j)
  {
    StartsAreComponents(s, i, j);
    if Together(Clusters(s), i, j) {
      var c: nat :| HoldsAt(Clusters(s), c, i) && HoldsAt(Clusters(s), c, j);
      HeldStart(s, Clusters(s), c, i);
      HeldStart(s, Clusters(s), c, j);
    }
    if ClusterStart(s, i) == ClusterStart(s, j) {
      SameStartTogether(s, Clusters(s), i, j);
    }
  }

  // ---- Twins ------------------------------------------------------------------------------------

  function SpanOf(c: seq<Stall>): (int, int) {
    if c == [] then (0, 0) else (MinStart(c), MaxEnd(c))
  }

  predicate IsTwin(a: (int, int), b: (int, int)) {
    Abs(a.0 - b.0) <= TWIN_SLACK && Abs(a.1 - b.1) <= TWIN_SLACK
  }

  datatype Group = Group(kernel: seq<Stall>, sched: seq<Stall>) {
    function Stalls(): seq<Stall> { kernel + sched }
  }

  type Slot = Option<seq<Stall>>

  /** The first scheduler cluster still free that is a twin, or the number of them. */
  function FirstTwin(sched: seq<Slot>, span: (int, int)): (t: nat)
    ensures t <= |sched|
    ensures t < |sched| ==> sched[t].Some? && IsTwin(span, SpanOf(sched[t].value))
    ensures forall i :: 0 <= i < t ==> sched[i].None? || !IsTwin(span, SpanOf(sched[i].value))
  {
    if sched == [] || (sched[0].Some? && IsTwin(span, SpanOf(sched[0].value))) then 0 else 1 + FirstTwin(sched[1..], span)
  }

  function PairFirst(k: seq<Stall>, sched: seq<Slot>): (Group, seq<Slot>) {
    var t := FirstTwin(sched, SpanOf(k));
    if t < |sched| then (Group(k, sched[t].value), sched[t := None]) else (Group(k, []), sched)
  }

  /** Pairs each kernel cluster with the first free twin; what is left over. */
  function PairUp(kernel: seq<seq<Stall>>, sched: seq<Slot>): (seq<Group>, seq<Slot>) {
    if kernel == [] then ([], sched)
    else
      var (before, left) := PairUp(kernel[..|kernel| - 1], sched);
      var (g, rest) := PairFirst(kernel[|kernel| - 1], left);
      (before + [g], rest)
  }

  function Unpaired(sched: seq<Slot>): seq<Group> {
    if sched == [] then []
    else Unpaired(sched[..|sched| - 1]) + (if sched[|sched| - 1].Some? then [Group([], sched[|sched| - 1].value)] else [])
  }

  function Wrapped(cs: seq<seq<Stall>>): seq<Slot> {
    seq(|cs|, i requires 0 <= i < |cs| => Some(cs[i]))
  }

  function IsKernel(): seq<Stall> -> bool { (c: seq<Stall>) => c != [] && c[0].kind.Kernel? }
  function IsSched(): seq<Stall> -> bool { (c: seq<Stall>) => !(c != [] && c[0].kind.Kernel?) }

  function Groups(cs: seq<seq<Stall>>): seq<Group> {
    var (paired, left) := PairUp(Filter(cs, IsKernel()), Wrapped(Filter(cs, IsSched())));
    paired + Unpaired(left)
  }

  // ---- Settling ---------------------------------------------------------------------------------

  datatype Incident = Incident(kernel: seq<Stall>, sched: seq<Stall>, caughtUp: bool)

  function EndOf(g: Group): int {
    if g.Stalls() == [] then 0 else MaxEnd(g.Stalls())
  }

  predicate CaughtUp(g: Group, latest: int) { latest > EndOf(g) + CAUGHT_UP }

  /** Ripe, and both halves in hand or the other one not coming. */
  predicate Due(g: Group, now: int, latest: int, force: bool) {
    var age := now - EndOf(g);
    var ripe := force || (CaughtUp(g, latest) && age > RIPE_AFTER) || age > GIVE_UP;
    force || (ripe && ((g.kernel != [] && g.sched != []) || age > TWIN_WAIT))
  }

  datatype State = State(pending: seq<Stall>, minor: seq<Stall>, incidents: seq<Incident>)

  function Settle(st: State, gs: seq<Group>, now: int, latest: int, force: bool): State {
    if gs == [] then st
    else
      var st, g := Settle(st, gs[..|gs| - 1], now, latest, force), gs[|gs| - 1];
      if Due(g, now, latest, force) then st.(incidents := st.incidents + [Incident(g.kernel, g.sched, CaughtUp(g, latest))])
      else st.(pending := st.pending + g.kernel + g.sched)
  }

  // ---- What a step must analyze -----------------------------------------------------------------

  /** The latest end of these stalls. */
  ghost predicate Ends(stalls: seq<Stall>, end: int) {
    (exists s :: s in stalls && s.end == end) && forall s :: s in stalls ==> s.end <= end
  }

  /** The earliest start of these stalls. */
  ghost predicate Begins(stalls: seq<Stall>, start: int) {
    (exists s :: s in stalls && s.start == start) && forall s :: s in stalls ==> start <= s.start
  }

  /** Of stalls that end at `end`: the trace is 50 ms past that and 300 ms have gone by, or 4 s have; and
      both halves are in hand, or half a second has gone by. */
  predicate DueBy(g: Group, end: int, now: int, latest: int) {
    && ((latest > end + CAUGHT_UP && now - end > RIPE_AFTER) || now - end > GIVE_UP)
    && ((g.kernel != [] && g.sched != []) || now - end > TWIN_WAIT)
  }

  ghost predicate DueNow(g: Group, now: int, latest: int) {
    exists end :: Ends(g.kernel + g.sched, end) && DueBy(g, end, now, latest)
  }

  ghost function ToAnalyze(now: int, latest: int, force: bool): Group -> bool {
    (g: Group) => force || DueNow(g, now, latest)
  }

  ghost function ToHold(now: int, latest: int, force: bool): Group -> bool {
    (g: Group) => !force && !DueNow(g, now, latest)
  }

  /** All the stalls of these groups, in order. */
  function StallsOf(gs: seq<Group>): seq<Stall> {
    if gs == [] then [] else StallsOf(gs[..|gs| - 1]) + gs[|gs| - 1].kernel + gs[|gs| - 1].sched
  }

  /** The incident is this group's, and says whether the trace was past its end. */
  ghost predicate IncidentOf(i: Incident, g: Group, latest: int) {
    && i.kernel == g.kernel && i.sched == g.sched
    && exists end :: Ends(g.kernel + g.sched, end) && i.caughtUp == (latest > end + CAUGHT_UP)
  }

  /** These groups have become incidents, in order; those are pending again, stall for stall. */
  ghost predicate Shaped(was: State, due: seq<Group>, hold: seq<Group>, latest: int, next: State) {
    && next.minor == was.minor
    && |next.incidents| == |was.incidents| + |due| && next.incidents[..|was.incidents|] == was.incidents
    && (forall k :: 0 <= k < |due| ==> IncidentOf(next.incidents[|was.incidents| + k], due[k], latest))
    && next.pending == was.pending + StallsOf(hold)
  }

  /** Exactly the groups that are due, or all if forced, have become incidents; every other is pending. */
  ghost predicate Settled(was: State, gs: seq<Group>, now: int, latest: int, force: bool, next: State) {
    Shaped(was, Filter(gs, ToAnalyze(now, latest, force)), Filter(gs, ToHold(now, latest, force)), latest, next)
  }

  ghost predicate GroupsFilled(gs: seq<Group>) {
    forall g :: g in gs ==> g.kernel + g.sched != []
  }

  lemma EndsExactly(stalls: seq<Stall>, end: int)
    requires stalls != []
    ensures Ends(stalls, end) <==> end == MaxEnd(stalls)
  {
    var m := MaxEndReached(stalls);
    assert stalls[m] in stalls;
    forall s | s in stalls ensures s.end <= MaxEnd(stalls) {
      var k :| 0 <= k < |stalls| && stalls[k] == s;
    }
  }

  lemma {:induction false} BeginsExactly(stalls: seq<Stall>, start: int)
    requires stalls != []
    ensures Begins(stalls, start) <==> start == MinStart(stalls)
  {
    var init, last := stalls[..|stalls| - 1], stalls[|stalls| - 1];
    assert stalls == init + [last];
    if init != [] {
      BeginsExactly(init, MinStart(init));
      var s :| s in init && s.start == MinStart(init);
      assert s in stalls && last in stalls;
    }
  }

  lemma DueExactly(g: Group, now: int, latest: int)
    requires g.kernel + g.sched != []
    ensures Due(g, now, latest, false) <==> DueNow(g, now, latest)
    ensures IncidentOf(Incident(g.kernel, g.sched, CaughtUp(g, latest)), g, latest)
  {
    EndsExactly(g.kernel + g.sched, EndOf(g));
    forall end | Ends(g.kernel + g.sched, end) ensures end == EndOf(g) {
      EndsExactly(g.kernel + g.sched, end);
    }
  }

  lemma {:induction false} SettleExactly(st: State, gs: seq<Group>, now: int, latest: int, force: bool)
    requires GroupsFilled(gs)
    ensures Settled(st, gs, now, latest, force, Settle(st, gs, now, latest, force))
  {
    if gs == [] {
      assert st.pending + [] == st.pending;
    } else {
      var init, g := gs[..|gs| - 1], gs[|gs| - 1];
      assert gs == init + [g];
      SettleExactly(st, init, now, latest, force);
      DueExactly(g, now, latest);
      FilterSnoc(init, g, ToAnalyze(now, latest, force));
      FilterSnoc(init, g, ToHold(now, latest, force));
      var mid := Settle(st, init, now, latest, force);
      var due, hold := Filter(init, ToAnalyze(now, latest, force)), Filter(init, ToHold(now, latest, force));
      if Due(g, now, latest, force) {
        ShapedDue(st, due, hold, latest, mid, g, Incident(g.kernel, g.sched, CaughtUp(g, latest)));
      } else {
        ShapedHold(st, due, hold, latest, mid, g);
      }
    }
  }

  lemma ShapedDue(was: State, due: seq<Group>, hold: seq<Group>, latest: int, mid: State, g: Group, i: Incident)
    requires Shaped(was, due, hold, latest, mid) && IncidentOf(i, g, latest)
    ensures Shaped(was, due + [g], hold, latest, mid.(incidents := mid.incidents + [i]))
  {}

  lemma ShapedHold(was: State, due: seq<Group>, hold: seq<Group>, latest: int, mid: State, g: Group)
    requires Shaped(was, due, hold, latest, mid)
    ensures Shaped(was, due, hold + [g], latest, mid.(pending := mid.pending + g.kernel + g.sched))
  {
    assert (hold + [g])[..|hold|] == hold;
    assert was.pending + (StallsOf(hold) + g.kernel + g.sched) == was.pending + StallsOf(hold) + g.kernel + g.sched;
  }

  lemma StepGroupsFilled(s: seq<Stall>)
    ensures GroupsFilled(Groups(Clusters(s)))
  {
    var cs := Clusters(s);
    var kernel, sched := Filter(cs, IsKernel()), Filter(cs, IsSched());
    var slots := Wrapped(sched);
    ClustersFilled(s);
    FilterMembers(cs, IsKernel());
    FilterMembers(cs, IsSched());
    assert SlotsFilled(slots) by {
      assert forall t :: 0 <= t < |slots| ==> slots[t] == Some(sched[t]) && sched[t] in sched;
    }
    LoneHasNoTwin(kernel, slots);
    KernelHalves(kernel, slots);
    UnpairedSlots(PairUp(kernel, slots).1);
  }

  function IsMinor(): Stall -> bool { (s: Stall) => s.minor }
  function IsMajor(): Stall -> bool { (s: Stall) => !s.minor }

  function StallEnd(s: Stall): int { s.end }

  /** One step: `rx` is what the probes sent since the last one. */
  function TickOf(st: State, rx: seq<Stall>, now: int, latest: int, force: bool): State {
    var pending := st.pending + Filter(rx, IsMajor());
    var st := st.(minor := DropOlder(st.minor + Filter(rx, IsMinor()), StallEnd, now - MINOR_KEEP));
    Settle(st.(pending := []), Groups(Clusters(SortBy(pending, StallKey))), now, latest, force)
  }

  class Analyzer {
    var pending: seq<Stall>
    var minor: seq<Stall>
    var incidents: seq<Incident>

    function View(): State
      reads this
    {
      State(pending, minor, incidents)
    }

    constructor ()
      ensures View() == State([], [], [])
    {
      pending, minor, incidents := [], [], [];
    }

    /** Takes in what the probes sent. */
    method Receive(rx: seq<Stall>, now: int)
      modifies this`pending, this`minor
      ensures pending == old(pending) + Filter(rx, IsMajor())
      ensures minor == DropOlder(old(minor) + Filter(rx, IsMinor()), StallEnd, now - MINOR_KEEP)
    {
      for i := 0 to |rx|
        invariant pending == old(pending) + Filter(rx[..i], IsMajor())
        invariant minor == old(minor) + Filter(rx[..i], IsMinor())
      {
        assert rx[..i + 1] == rx[..i] + [rx[i]];
        FilterSnoc(rx[..i], rx[i], IsMajor());
        FilterSnoc(rx[..i], rx[i], IsMinor());
        if rx[i].minor {
          minor := minor + [rx[i]];
        } else {
          pending := pending + [rx[i]];
        }
      }
      assert rx[..|rx|] == rx;
      minor := PopOlder(minor, StallEnd, now - MINOR_KEEP);
    }

    method Tick(rx: seq<Stall>, now: int, latest: int, force: bool)
      modifies this
      ensures View() == TickOf(old(View()), rx, now, latest, force)
    {
      Receive(rx, now);
      if pending == [] {
        NothingPending();
        return;
      }
      var clusters := ClusterUp(SortBy(pending, StallKey));
      var groups := PairTwins(clusters);
      pending := [];
      SettleGroups(groups, now, latest, force);
    }

    method SettleGroups(groups: seq<Group>, now: int, latest: int, force: bool)
      modifies this`pending, this`incidents
      ensures View() == Settle(old(View()), groups, now, latest, force)
      ensures GroupsFilled(groups) ==> Settled(old(View()), groups, now, latest, force, View())
    {
      if GroupsFilled(groups) {
        SettleExactly(View(), groups, now, latest, force);
      }
      for i := 0 to |groups|
        invariant View() == Settle(old(View()), groups[..i], now, latest, force)
      {
        assert groups[..i + 1][..i] == groups[..i];
        var g := groups[i];
        if Due(g, now, latest, force) {
          incidents := incidents + [Incident(g.kernel, g.sched, CaughtUp(g, latest))];
        } else {
          pending := pending + g.kernel;
          pending := pending + g.sched;
        }
      }
      assert groups[..|groups|] == groups;
    }
  }

  lemma NothingPending()
    ensures Groups(Clusters(SortBy([], StallKey))) == []
  {
    assert Clusters(SortBy([], StallKey)) == [];
  }

  method PairTwins(clusters: seq<seq<Stall>>) returns (groups: seq<Group>)
    ensures groups == Groups(clusters)
  {
    var kernel, sched := Filter(clusters, IsKernel()), Wrapped(Filter(clusters, IsSched()));
    var paired, left := PairKernels(kernel, sched);
    groups := AddUnpaired(paired, left);
  }

  method PairKernels(kernel: seq<seq<Stall>>, all: seq<Slot>) returns (groups: seq<Group>, sched: seq<Slot>)
    ensures (groups, sched) == PairUp(kernel, all)
  {
    groups, sched := [], all;
    for i := 0 to |kernel|
      invariant (groups, sched) == PairUp(kernel[..i], all)
    {
      assert kernel[..i + 1][..i] == kernel[..i];
      var t := FirstTwin(sched, SpanOf(kernel[i]));
      if t < |sched| {
        groups, sched := groups + [Group(kernel[i], sched[t].value)], sched[t := None];
      } else {
        groups := groups + [Group(kernel[i], [])];
      }
    }
    assert kernel[..|kernel|] == kernel;
  }

  method AddUnpaired(paired: seq<Group>, sched: seq<Slot>) returns (groups: seq<Group>)
    ensures groups == paired + Unpaired(sched)
  {
    groups := paired;
    for i := 0 to |sched|
      invariant groups == paired + Unpaired(sched[..i])
    {
      assert sched[..i + 1][..i] == sched[..i];
      if sched[i].Some? {
        groups := groups + [Group([], sched[i].value)];
      }
    }
    assert sched[..|sched|] == sched;
  }

  ghost predicate OfKind(stalls: seq<Stall>, kind: StallKind) {
    forall s :: s in stalls ==> s.kind == kind
  }

  ghost predicate OneKind(c: seq<Stall>) { c != [] && OfKind(c, c[0].kind) }

  lemma {:induction false} ClustersOneKind(s: seq<Stall>)
    ensures forall c :: c in Clusters(s) ==> OneKind(c)
  {
    if s != [] {
      var b := ClusterStart(s, |s| - 1);
      ClustersOneKind(s[..b]);
      forall x | x in s[b..] ensures x.kind == s[b..][0].kind {
        var m :| 0 <= m < |s[b..]| && s[b..][m] == x;
        ClusterKind(s, |s| - 1, b + m);
      }
    }
  }

  lemma {:induction false} PairUpKinds(kernel: seq<seq<Stall>>, sched: seq<Slot>)
    requires forall c :: c in kernel ==> OfKind(c, Kernel)
    requires forall t :: 0 <= t < |sched| && sched[t].Some? ==> OfKind(sched[t].value, Scheduler)
    ensures var (groups, left) := PairUp(kernel, sched);
      && (forall g :: g in groups ==> OfKind(g.kernel, Kernel) && OfKind(g.sched, Scheduler))
      && (forall t :: 0 <= t < |left| && left[t].Some? ==> OfKind(left[t].value, Scheduler))
  {
    if kernel != [] {
      PairUpKinds(kernel[..|kernel| - 1], sched);
    }
  }

  lemma {:induction false} UnpairedKinds(sched: seq<Slot>)
    requires forall t :: 0 <= t < |sched| && sched[t].Some? ==> OfKind(sched[t].value, Scheduler)
    ensures forall g :: g in Unpaired(sched) ==> OfKind(g.kernel, Kernel) && OfKind(g.sched, Scheduler)
  {
    if sched != [] {
      UnpairedKinds(sched[..|sched| - 1]);
    }
  }

  lemma KernelKinds(cs: seq<seq<Stall>>)
    requires forall c :: c in cs ==> OneKind(c)
    ensures forall c :: c in Filter(cs, IsKernel()) ==> OfKind(c, Kernel)
  {
    FilterMembers(cs, IsKernel());
    forall c | c in Filter(cs, IsKernel()) ensures OfKind(c, Kernel) {
      assert OneKind(c) && IsKernel()(c);
    }
  }

  lemma SchedKinds(cs: seq<seq<Stall>>)
    requires forall c :: c in cs ==> OneKind(c)
    ensures forall c :: c in Filter(cs, IsSched()) ==> OfKind(c, Scheduler)
  {
    FilterMembers(cs, IsSched());
    forall c | c in Filter(cs, IsSched()) ensures OfKind(c, Scheduler) {
      assert OneKind(c) && IsSched()(c);
    }
  }

  lemma WrappedKinds(cs: seq<seq<Stall>>)
    requires forall c :: c in cs ==> OfKind(c, Scheduler)
    ensures var slots := Wrapped(cs); forall t :: 0 <= t < |slots| && slots[t].Some? ==> OfKind(slots[t].value, Scheduler)
  {
    forall t | 0 <= t < |cs| ensures OfKind(Wrapped(cs)[t].value, Scheduler) {
      assert cs[t] in cs;
    }
  }

  lemma GroupsKinds(cs: seq<seq<Stall>>)
    requires forall c :: c in cs ==> OneKind(c)
    ensures forall g :: g in Groups(cs) ==> OfKind(g.kernel, Kernel) && OfKind(g.sched, Scheduler)
  {
    var kernel, slots := Filter(cs, IsKernel()), Wrapped(Filter(cs, IsSched()));
    KernelKinds(cs);
    SchedKinds(cs);
    WrappedKinds(Filter(cs, IsSched()));
    PairUpKinds(kernel, slots);
    UnpairedKinds(PairUp(kernel, slots).1);
  }

  /** Each half of a step's groups holds the reports of its own probe. */
  lemma HalvesOfKind(s: seq<Stall>, g: Group)
    requires g in Groups(Clusters(s))
    ensures OfKind(g.kernel, Kernel) && OfKind(g.sched, Scheduler)
  {
    ClustersOneKind(s);
    GroupsKinds(Clusters(s));
  }

  // ---- Conservation -----------------------------------------------------------------------------

  function InGroups(gs: seq<Group>): multiset<Stall> {
    if gs == [] then multiset{} else InGroups(gs[..|gs| - 1]) + multiset(gs[|gs| - 1].Stalls())
  }

  function InIncidents(list: seq<Incident>): multiset<Stall> {
    if list == [] then multiset{}
    else InIncidents(list[..|list| - 1]) + multiset(list[|list| - 1].kernel) + multiset(list[|list| - 1].sched)
  }

  function InSlots(sched: seq<Slot>): multiset<Stall> {
    if sched == [] then multiset{}
    else InSlots(sched[..|sched| - 1]) + (if sched[|sched| - 1].Some? then multiset(sched[|sched| - 1].value) else multiset{})
  }

  function InClusters(cs: seq<seq<Stall>>): multiset<Stall> {
    if cs == [] then multiset{} else InClusters(cs[..|cs| - 1]) + multiset(cs[|cs| - 1])
  }

  lemma {:induction false} FlatMultiset(cs: seq<seq<Stall>>)
    ensures multiset(Flat(cs)) == InClusters(cs)
  {
    if cs != [] {
      FlatMultiset(cs[..|cs| - 1]);
    }
  }

  lemma InClustersNext(cs: seq<seq<Stall>>, c: seq<Stall>)
    ensures InClusters(cs + [c]) == InClusters(cs) + multiset(c)
  {
    assert (cs + [c])[..|cs|] == cs;
  }

  lemma {:induction false} InClustersSplit(cs: seq<seq<Stall>>)
    ensures InClusters(cs) == InClusters(Filter(cs, IsKernel())) + InClusters(Filter(cs, IsSched()))
  {
    if cs != [] {
      var init, last := cs[..|cs| - 1], cs[|cs| - 1];
      InClustersSplit(init);
      InClustersNext(Filter(init, IsKernel()), last);
      InClustersNext(Filter(init, IsSched()), last);
    }
  }

  lemma {:induction false} WrappedMultiset(cs: seq<seq<Stall>>)
    ensures InSlots(Wrapped(cs)) == InClusters(cs)
  {
    if cs != [] {
      WrappedMultiset(cs[..|cs| - 1]);
      assert Wrapped(cs)[..|cs| - 1] == Wrapped(cs[..|cs| - 1]);
    }
  }

  /** Taking a cluster out of its slot takes exactly its stalls: it cannot be paired again. */
  lemma {:induction false} InSlotsTake(sched: seq<Slot>, t: nat)
    requires t < |sched| && sched[t].Some?
    ensures InSlots(sched[t := None]) + multiset(sched[t].value) == InSlots(sched)
  {
    var n := |sched| - 1;
    if t == n {
      assert sched[t := None][..n] == sched[..n];
    } else {
      assert sched[t := None][..n] == sched[..n][t := None];
      InSlotsTake(sched[..n], t);
    }
  }

  /** Putting two balances together. */
  lemma Balance<T>(a: multiset<T>, l: multiset<T>, c: multiset<T>, s: multiset<T>, g: multiset<T>, r: multiset<T>, k: multiset<T>)
    requires a + l == c + s && g + r == k + l
    ensures (a + g) + r == (c + k) + s
  {
    assert (a + g) + r == a + (g + r) == (a + l) + k;
  }

  lemma PairFirstKeeps(k: seq<Stall>, sched: seq<Slot>)
    ensures var (g, rest) := PairFirst(k, sched);
      multiset(g.Stalls()) + InSlots(rest) == multiset(k) + InSlots(sched)
  {
    var t := FirstTwin(sched, SpanOf(k));
    if t < |sched| {
      InSlotsTake(sched, t);
      assert multiset(k + sched[t].value) == multiset(k) + multiset(sched[t].value);
    } else {
      assert k + [] == k;
    }
  }

  lemma GroupsNext(gs: seq<Group>, g: Group)
    ensures InGroups(gs + [g]) == InGroups(gs) + multiset(g.Stalls())
  {
    assert (gs + [g])[..|gs|] == gs;
  }

  lemma {:induction false} PairUpKeeps(kernel: seq<seq<Stall>>, sched: seq<Slot>)
    ensures InGroups(PairUp(kernel, sched).0) + InSlots(PairUp(kernel, sched).1) == InClusters(kernel) + InSlots(sched)
  {
    if kernel != [] {
      var init, k := kernel[..|kernel| - 1], kernel[|kernel| - 1];
      PairUpKeeps(init, sched);
      var (before, left) := PairUp(init, sched);
      var (g, rest) := PairFirst(k, left);
      PairFirstKeeps(k, left);
      GroupsNext(before, g);
      Balance(InGroups(before), InSlots(left), InClusters(init), InSlots(sched), multiset(g.Stalls()), InSlots(rest), multiset(k));
    }
  }

  lemma {:induction false} UnpairedKeeps(sched: seq<Slot>)
    ensures InGroups(Unpaired(sched)) == InSlots(sched)
  {
    if sched != [] {
      var init, last := sched[..|sched| - 1], sched[|sched| - 1];
      UnpairedKeeps(init);
      if last.Some? {
        GroupsNext(Unpaired(init), Group([], last.value));
        assert [] + last.value == last.value;
      } else {
        assert Unpaired(sched) == Unpaired(init);
      }
    }
  }

  lemma {:induction false} InGroupsConcat(a: seq<Group>, b: seq<Group>)
    ensures InGroups(a + b) == InGroups(a) + InGroups(b)
  {
    if b == [] {
      assert a + b == a;
    } else {
      assert (a + b)[..|a + b| - 1] == a + b[..|b| - 1];
      InGroupsConcat(a, b[..|b| - 1]);
    }
  }

  lemma GroupsKeep(cs: seq<seq<Stall>>)
    ensures InGroups(Groups(cs)) == InClusters(cs)
  {
    var kernel, sched := Filter(cs, IsKernel()), Wrapped(Filter(cs, IsSched()));
    var (paired, left) := PairUp(kernel, sched);
    PairUpKeeps(kernel, sched);
    UnpairedKeeps(left);
    InGroupsConcat(paired, Unpaired(left));
    WrappedMultiset(Filter(cs, IsSched()));
    InClustersSplit(cs);
  }

  /** The stalls in incidents and the stalls pending. */
  function All(st: State): multiset<Stall> { InIncidents(st.incidents) + multiset(st.pending) }

  lemma SettleOne(st: State, g: Group, i: Incident)
    requires i.kernel == g.kernel && i.sched == g.sched
    ensures All(st.(incidents := st.incidents + [i])) == All(st) + multiset(g.Stalls())
    ensures All(st.(pending := st.pending + g.kernel + g.sched)) == All(st) + multiset(g.Stalls())
  {
    assert multiset(g.Stalls()) == multiset(g.kernel) + multiset(g.sched);
    assert (st.incidents + [i])[..|st.incidents|] == st.incidents;
    assert multiset(st.pending + g.kernel + g.sched) == multiset(st.pending) + multiset(g.kernel) + multiset(g.sched);
  }

  lemma {:induction false} SettleKeeps(st: State, gs: seq<Group>, now: int, latest: int, force: bool)
    ensures All(Settle(st, gs, now, latest, force)) == All(st) + InGroups(gs)
  {
    if gs != [] {
      var init, g := gs[..|gs| - 1], gs[|gs| - 1];
      SettleKeeps(st, init, now, latest, force);
      SettleOne(Settle(st, init, now, latest, force), g, Incident(g.kernel, g.sched, CaughtUp(g, latest)));
      assert All(st) + InGroups(gs) == (All(st) + InGroups(init)) + multiset(g.Stalls());
    }
  }

  lemma {:induction false} MajorCounts(rx: seq<Stall>, s: Stall)
    ensures multiset(Filter(rx, IsMajor()))[s] == if s.minor then 0 else multiset(rx)[s]
  {
    if rx != [] {
      var init, last := rx[..|rx| - 1], rx[|rx| - 1];
      MajorCounts(init, s);
      assert rx == init + [last];
      FilterSnoc(init, last, IsMajor());
    }
  }

  /** One step neither loses nor repeats a stall that is not minor. */
  lemma TickKeeps(st: State, rx: seq<Stall>, now: int, latest: int, force: bool, s: Stall)
    ensures All(TickOf(st, rx, now, latest, force))[s] == All(st)[s] + if s.minor then 0 else multiset(rx)[s]
  {
    var pending := st.pending + Filter(rx, IsMajor());
    var sorted := SortBy(pending, StallKey);
    SortByMeaning(pending, StallKey);
    ClustersFlat(sorted);
    FlatMultiset(Clusters(sorted));
    GroupsKeep(Clusters(sorted));
    var start := st.(pending := [], minor := DropOlder(st.minor + Filter(rx, IsMinor()), StallEnd, now - MINOR_KEEP));
    SettleKeeps(start, Groups(Clusters(sorted)), now, latest, force);
    assert multiset(pending) == multiset(st.pending) + multiset(Filter(rx, IsMajor()));
    MajorCounts(rx, s);
  }

  /** What one step is given. */
  datatype Step = Step(rx: seq<Stall>, now: int, latest: int, force: bool)

  function Run(steps: seq<Step>): State {
    if steps == [] then State([], [], [])
    else
      var s := steps[|steps| - 1];
      TickOf(Run(steps[..|steps| - 1]), s.rx, s.now, s.latest, s.force)
  }

  /** Everything the probes have sent, in order. */
  function Sent(steps: seq<Step>): seq<Stall> {
    if steps == [] then [] else Sent(steps[..|steps| - 1]) + steps[|steps| - 1].rx
  }

  /** Over any run every stall that is not minor is in exactly one incident or still pending, as often
      as it was sent; no minor one ever is. */
  lemma {:induction false} StallsConserved(steps: seq<Step>, s: Stall)
    ensures All(Run(steps))[s] == if s.minor then 0 else multiset(Sent(steps))[s]
  {
    if steps != [] {
      var step := steps[|steps| - 1];
      StallsConserved(steps[..|steps| - 1], s);
      TickKeeps(Run(steps[..|steps| - 1]), step.rx, step.now, step.latest, step.force, s);
    }
  }

  lemma {:induction false} SettleMinor(st: State, gs: seq<Group>, now: int, latest: int, force: bool)
    ensures Settle(st, gs, now, latest, force).minor == st.minor
  {
    if gs != [] {
      SettleMinor(st, gs[..|gs| - 1], now, latest, force);
    }
  }

  lemma CutKeeps(all: seq<Stall>, cutoff: int, s: Stall)
    ensures s in DropOlder(all, StallEnd, cutoff) ==> s in all
    ensures s in all ==> s.end < cutoff || s in DropOlder(all, StallEnd, cutoff)
  {
    var next := DropOlder(all, StallEnd, cutoff);
    DropOlderCuts(all, StallEnd, cutoff);
    assert all == all[..|all| - |next|] + next;
    if s in all && s !in next {
      var i :| 0 <= i < |all| - |next| && all[i] == s;
      assert StallEnd(all[i]) < cutoff;
    }
  }

  lemma MinorAmong(was: seq<Stall>, rx: seq<Stall>, cutoff: int, s: Stall)
    ensures var next := DropOlder(was + Filter(rx, IsMinor()), StallEnd, cutoff);
      && (s in next ==> s in was || (s in rx && s.minor))
      && (s in was || (s in rx && s.minor) ==> s.end < cutoff || s in next)
  {
    FilterMembers(rx, IsMinor());
    CutKeeps(was + Filter(rx, IsMinor()), cutoff, s);
  }

  lemma {:induction false} MinorIs(st: State, rx: seq<Stall>, now: int, latest: int, force: bool)
    ensures TickOf(st, rx, now, latest, force).minor == DropOlder(st.minor + Filter(rx, IsMinor()), StallEnd, now - MINOR_KEEP)
  {
    var pending := st.pending + Filter(rx, IsMajor());
    var start := st.(pending := [], minor := DropOlder(st.minor + Filter(rx, IsMinor()), StallEnd, now - MINOR_KEEP));
    SettleMinor(start, Groups(Clusters(SortBy(pending, StallKey))), now, latest, force);
  }

  /** The stall ended within the last 30 s of every one of these steps. */
  ghost predicate NeverOld(steps: seq<Step>, s: Stall) {
    forall j :: 0 <= j < |steps| ==> steps[j].now - MINOR_KEEP <= s.end
  }

  lemma ListedNext(was: seq<Stall>, sent: seq<Stall>, rx: seq<Stall>, cutoff: int, s: Stall, stays: bool)
    requires s in was ==> s.minor && s in sent
    requires s.minor && s in sent && stays ==> s in was
    ensures var next := DropOlder(was + Filter(rx, IsMinor()), StallEnd, cutoff);
      && (s in next ==> s.minor && s in sent + rx)
      && (s.minor && s in sent + rx && stays && cutoff <= s.end ==> s in next)
  {
    MinorAmong(was, rx, cutoff, s);
  }

  /** Only minor stalls are ever listed, and one sent stays listed until it is 30 s old. */
  lemma {:induction false} MinorsListed(steps: seq<Step>, s: Stall)
    ensures s in Run(steps).minor ==> s.minor && s in Sent(steps)
    ensures s.minor && s in Sent(steps) && NeverOld(steps, s) ==> s in Run(steps).minor
  {
    if steps != [] {
      var init, step := steps[..|steps| - 1], steps[|steps| - 1];
      MinorsListed(init, s);
      MinorIs(Run(init), step.rx, step.now, step.latest, step.force);
      assert NeverOld(steps, s) ==> NeverOld(init, s) && step.now - MINOR_KEEP <= s.end;
      ListedNext(Run(init).minor, Sent(init), step.rx, step.now - MINOR_KEEP, s, NeverOld(init, s));
    }
  }

  // ---- What is held back ------------------------------------------------------------------------

  /** A stall still held belongs to a group that ended at most four seconds ago. */
  ghost predicate HeldRecently(pending: seq<Stall>, gs: seq<Group>, now: int) {
    forall s :: s in pending ==> exists g :: g in gs && s in g.Stalls() && now - EndOf(g) <= GIVE_UP
  }

  lemma {:induction false} SettleHolds(st: State, gs: seq<Group>, now: int, latest: int, force: bool)
    requires st.pending == []
    ensures var next := Settle(st, gs, now, latest, force);
      HeldRecently(next.pending, gs, now) && (force ==> next.pending == [])
  {
    if gs != [] {
      var init, g := gs[..|gs| - 1], gs[|gs| - 1];
      SettleHolds(st, init, now, latest, force);
      var mid, next := Settle(st, init, now, latest, force), Settle(st, gs, now, latest, force);
      forall s | s in next.pending ensures exists h :: h in gs && s in h.Stalls() && now - EndOf(h) <= GIVE_UP {
        if s in mid.pending {
          var h :| h in init && s in h.Stalls() && now - EndOf(h) <= GIVE_UP;
          assert h in gs;
        } else {
          assert g in gs && s in g.Stalls();
        }
      }
    }
  }

  /** After a step exactly the groups that are due have become incidents, and every other stall is
      pending. */
  lemma TickSettles(st: State, rx: seq<Stall>, now: int, latest: int, force: bool)
    ensures var (all, next) := (SortBy(st.pending + Filter(rx, IsMajor()), StallKey), TickOf(st, rx, now, latest, force));
      Settled(State([], next.minor, st.incidents), Groups(Clusters(all)), now, latest, force, next)
  {
    var all := SortBy(st.pending + Filter(rx, IsMajor()), StallKey);
    var minor := DropOlder(st.minor + Filter(rx, IsMinor()), StallEnd, now - MINOR_KEEP);
    StepGroupsFilled(all);
    SettleExactly(State([], minor, st.incidents), Groups(Clusters(all)), now, latest, force);
  }

  /** A forced step leaves nothing pending; any other leaves only groups whose latest end is at most
      four seconds old. */
  lemma OnlyRecentIsHeld(st: State, rx: seq<Stall>, now: int, latest: int, force: bool)
    ensures var next := TickOf(st, rx, now, latest, force);
      && (force ==> next.pending == [])
      && HeldRecently(next.pending, Groups(Clusters(SortBy(st.pending + Filter(rx, IsMajor()), StallKey))), now)
  {
    var sorted := SortBy(st.pending + Filter(rx, IsMajor()), StallKey);
    var start := st.(pending := [], minor := DropOlder(st.minor + Filter(rx, IsMinor()), StallEnd, now - MINOR_KEEP));
    SettleHolds(start, Groups(Clusters(sorted)), now, latest, force);
  }

  /** Old enough to be analyzed unasked: past the ripening time, the trace past its end or given up
      on, and both halves in hand or the other one given up on. */
  ghost predicate Ripe(i: Incident, now: int, latest: int) {
    var end := EndOf(Group(i.kernel, i.sched));
    && now - end > RIPE_AFTER
    && i.caughtUp == (latest > end + CAUGHT_UP) && (i.caughtUp || now - end > GIVE_UP)
    && ((i.kernel != [] && i.sched != []) || now - end > TWIN_WAIT)
  }

  lemma {:induction false} SettleRipe(st: State, gs: seq<Group>, now: int, latest: int)
    ensures var next := Settle(st, gs, now, latest, false).incidents;
      && |st.incidents| <= |next| && next[..|st.incidents|] == st.incidents
      && forall k :: |st.incidents| <= k < |next| ==> Ripe(next[k], now, latest)
  {
    if gs != [] {
      var init, g := gs[..|gs| - 1], gs[|gs| - 1];
      SettleRipe(st, init, now, latest);
      assert Group(g.kernel, g.sched) == g;
    }
  }

  /** Unless forced, a step only adds incidents, and only ripe ones. */
  lemma NothingTooSoon(st: State, rx: seq<Stall>, now: int, latest: int)
    ensures var next := TickOf(st, rx, now, latest, false).incidents;
      && |st.incidents| <= |next| && next[..|st.incidents|] == st.incidents
      && forall k :: |st.incidents| <= k < |next| ==> Ripe(next[k], now, latest)
  {
    var sorted := SortBy(st.pending + Filter(rx, IsMajor()), StallKey);
    var minor := DropOlder(st.minor + Filter(rx, IsMinor()), StallEnd, now - MINOR_KEEP);
    SettleRipe(st.(pending := [], minor := minor), Groups(Clusters(sorted)), now, latest);
  }

  /** Alike at both ends: the earliest starts and the latest ends are at most the slack apart. */
  ghost predicate Alike(kernel: seq<Stall>, sched: seq<Stall>) {
    && (exists a, b :: Begins(kernel, a) && Begins(sched, b) && a <= b + TWIN_SLACK && b <= a + TWIN_SLACK)
    && (exists c, d :: Ends(kernel, c) && Ends(sched, d) && c <= d + TWIN_SLACK && d <= c + TWIN_SLACK)
  }

  lemma TwinExactly(kernel: seq<Stall>, sched: seq<Stall>)
    requires kernel != [] && sched != []
    ensures IsTwin(SpanOf(kernel), SpanOf(sched)) <==> Alike(kernel, sched)
  {
    forall t ensures Begins(kernel, t) <==> t == MinStart(kernel) { BeginsExactly(kernel, t); }
    forall t ensures Begins(sched, t) <==> t == MinStart(sched) { BeginsExactly(sched, t); }
    forall t ensures Ends(kernel, t) <==> t == MaxEnd(kernel) { EndsExactly(kernel, t); }
    forall t ensures Ends(sched, t) <==> t == MaxEnd(sched) { EndsExactly(sched, t); }
    assert Begins(kernel, MinStart(kernel)) && Begins(sched, MinStart(sched));
    assert Ends(kernel, MaxEnd(kernel)) && Ends(sched, MaxEnd(sched));
  }

  /** Only twins are ever paired. */
  lemma {:induction false} TwinsPair(kernel: seq<seq<Stall>>, sched: seq<Slot>)
    ensures forall g :: g in PairUp(kernel, sched).0 && g.sched != [] ==> IsTwin(SpanOf(g.kernel), SpanOf(g.sched))
  {
    if kernel != [] {
      TwinsPair(kernel[..|kernel| - 1], sched);
    }
  }

  /** Of the groups a step forms, those with both halves are alike at both ends. */
  lemma OnlyTwinsPair(s: seq<Stall>, g: Group)
    requires g in Groups(Clusters(s)) && g.kernel != [] && g.sched != []
    ensures Alike(g.kernel, g.sched)
  {
    var cs := Clusters(s);
    var kernel, slots := Filter(cs, IsKernel()), Wrapped(Filter(cs, IsSched()));
    TwinsPair(kernel, slots);
    UnpairedSlots(PairUp(kernel, slots).1);
    TwinExactly(g.kernel, g.sched);
  }

  /** No free scheduler cluster is a twin of this span. */
  ghost predicate NoTwinFree(span: (int, int), sched: seq<Slot>) {
    forall t :: 0 <= t < |sched| && sched[t].Some? ==> !IsTwin(span, SpanOf(sched[t].value))
  }

  ghost predicate SlotsFilled(sched: seq<Slot>) {
    forall t :: 0 <= t < |sched| && sched[t].Some? ==> sched[t].value != []
  }

  /** A kernel cluster left on its own has no twin among the scheduler clusters left over. */
  lemma {:induction false} LoneHasNoTwin(kernel: seq<seq<Stall>>, sched: seq<Slot>)
    requires SlotsFilled(sched)
    ensures SlotsFilled(PairUp(kernel, sched).1)
    ensures forall g :: g in PairUp(kernel, sched).0 && g.sched == [] ==> NoTwinFree(SpanOf(g.kernel), PairUp(kernel, sched).1)
  {
    if kernel != [] {
      var init, k := kernel[..|kernel| - 1], kernel[|kernel| - 1];
      LoneHasNoTwin(init, sched);
      var (before, left) := PairUp(init, sched);
      forall g | g in before && g.sched == [] ensures NoTwinFree(SpanOf(g.kernel), PairFirst(k, left).1) {
        StillNoTwin(SpanOf(g.kernel), k, left);
      }
    }
  }

  lemma StillNoTwin(span: (int, int), k: seq<Stall>, left: seq<Slot>)
    requires NoTwinFree(span, left)
    ensures NoTwinFree(span, PairFirst(k, left).1)
  {}

  lemma {:induction false} UnpairedSlots(sched: seq<Slot>)
    ensures forall g :: g in Unpaired(sched) ==> g.kernel == [] && exists t :: 0 <= t < |sched| && sched[t] == Some(g.sched)
  {
    if sched != [] {
      var init := sched[..|sched| - 1];
      UnpairedSlots(init);
      forall g | g in Unpaired(init) ensures exists t :: 0 <= t < |sched| && sched[t] == Some(g.sched) {
        var t :| 0 <= t < |init| && init[t] == Some(g.sched);
        assert sched[t] == Some(g.sched);
      }
      assert sched[|init|].Some? ==> sched[|init|] == Some(sched[|init|].value);
    }
  }

  lemma {:induction false} KernelHalves(kernel: seq<seq<Stall>>, sched: seq<Slot>)
    ensures forall g :: g in PairUp(kernel, sched).0 ==> g.kernel in kernel
  {
    if kernel != [] {
      var init := kernel[..|kernel| - 1];
      KernelHalves(init, sched);
      assert kernel == init + [kernel[|kernel| - 1]];
    }
  }

  lemma {:induction false} ClustersFilled(s: seq<Stall>)
    ensures forall c :: c in Clusters(s) ==> c != []
    decreases |s|
  {
    if s != [] {
      ClustersFilled(s[..ClusterStart(s, |s| - 1)]);
    }
  }

  /** One freeze is one incident: of the groups a step forms, none left with only its real-time half is
      a twin of one left with only its ordinary half. */
  lemma NoTwinsLeftApart(s: seq<Stall>, g: Group, h: Group)
    requires g in Groups(Clusters(s)) && h in Groups(Clusters(s)) && g.sched == [] && h.kernel == []
    ensures !Alike(g.kernel, h.sched)
  {
    StepGroupsFilled(s);
    TwinExactly(g.kernel, h.sched);
    LoneGroupsNoTwins(s, g, h);
  }

  lemma LoneGroupsNoTwins(s: seq<Stall>, g: Group, h: Group)
    requires g in Groups(Clusters(s)) && h in Groups(Clusters(s)) && g.sched == [] && h.kernel == []
    ensures !IsTwin(SpanOf(g.kernel), SpanOf(h.sched))
  {
    var cs := Clusters(s);
    var kernel, sched := Filter(cs, IsKernel()), Filter(cs, IsSched());
    ClustersFilled(s);
    FilterMembers(cs, IsKernel());
    FilterMembers(cs, IsSched());
    var slots := Wrapped(sched);
    assert SlotsFilled(slots) by {
      assert forall t :: 0 <= t < |slots| ==> slots[t] == Some(sched[t]) && sched[t] in sched;
    }
    LoneHasNoTwin(kernel, slots);
    KernelHalves(kernel, slots);
    UnpairedSlots(PairUp(kernel, slots).1);
  }
}
