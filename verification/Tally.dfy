/** Cutting the per-file tally down once it passes its cap. The survivors are picked while walking a
    hash map, whose order nobody chooses, so that order is a parameter. */
module Tally {
  import opened Trace
  import opened Seqs

  /** The order a hash map is walked in: every key, once. */
  ghost predicate Walks<K(!new)>(order: seq<K>, m: map<K, int>) {
    && (forall k :: k in order <==> k in m)
    && forall i, j :: 0 <= i < j < |order| ==> order[i] != order[j]
  }

  function Above<K>(m: map<K, int>, cut: int): K -> bool { k => k in m && m[k] > cut }

  function Under<K>(m: map<K, int>, cut: int): K -> bool { k => k in m && m[k] < cut }

  ghost function Those<K(!new)>(m: map<K, int>, p: K -> bool): set<K> { set k | k in m && p(k) }

  /** Fewer than half the entries lie above it, at most half below: the upper median of the waits. */
  ghost predicate UpperMedian<K(!new)>(m: map<K, int>, cut: int) {
    && |Those(m, Above(m, cut))| < |m| - |m| / 2
    && |Those(m, Under(m, cut))| <= |m| / 2
  }

  function Restrict<K>(m: map<K, int>, keys: seq<K>): map<K, int> {
    map k | k in m && k in keys :: m[k]
  }

  /** The first `room` entries above the cut, in the order of the walk. */
  function FirstAbove<K>(order: seq<K>, m: map<K, int>, cut: int, room: nat): seq<K> {
    var over := Filter(order, Above(m, cut));
    over[..Min(room, |over|)]
  }

  /** Every entry kept waited longer than every entry dropped. */
  ghost predicate LongestKept<K(!new)>(m: map<K, int>, kept: map<K, int>) {
    forall k, d :: k in kept && k in m && d in m && d !in kept ==> m[k] > m[d]
  }

  // ---- The median -------------------------------------------------------------------------------

  function TotalsOf<K>(order: seq<K>, m: map<K, int>): seq<int>
    requires forall k :: k in order ==> k in m
  {
    seq(|order|, i requires 0 <= i < |order| => (assert order[i] in order; m[order[i]]))
  }

  function TotalKey(t: int): Key { (t, t) }

  lemma {:induction false} FilterTotals<K(!new)>(order: seq<K>, m: map<K, int>, p: K -> bool, q: int -> bool)
    requires forall k :: k in order ==> k in m && p(k) == q(m[k])
    ensures |Filter(order, p)| == |Filter(TotalsOf(order, m), q)|
  {
    if order != [] {
      var init, last := order[..|order| - 1], order[|order| - 1];
      assert order == init + [last];
      FilterTotals(init, m, p, q);
      assert TotalsOf(order, m) == TotalsOf(init, m) + [m[last]];
      FilterSnoc(init, last, p);
      FilterSnoc(TotalsOf(init, m), m[last], q);
    }
  }

  lemma Cancel<T>(a: multiset<T>, b: multiset<T>, c: multiset<T>, x: T)
    requires a + multiset{x} == b + multiset{x} + c
    ensures a == b + c
  {
    assert a == (a + multiset{x}) - multiset{x};
    assert b + c == (b + multiset{x} + c) - multiset{x};
  }

  lemma {:induction false} FilterCount<T(!new)>(a: seq<T>, b: seq<T>, p: T -> bool)
    requires multiset(a) == multiset(b)
    ensures |Filter(a, p)| == |Filter(b, p)|
  {
    SameMultiset(a, b);
    if a != [] {
      var init, last := a[..|a| - 1], a[|a| - 1];
      assert a == init + [last];
      assert last in b by { assert last in a; }
      var i :| 0 <= i < |b| && b[i] == last;
      var (before, after) := (b[..i], b[i + 1..]);
      assert b == before + [last] + after;
      assert multiset(a) == multiset(init) + multiset{last};
      assert multiset(b) == multiset(before) + multiset{last} + multiset(after);
      Cancel(multiset(init), multiset(before), multiset(after), last);
      assert multiset(before + after) == multiset(before) + multiset(after);
      FilterCount(init, before + after, p);
      FilterSnoc(init, last, p);
      FilterConcat(before + [last], after, p);
      FilterSnoc(before, last, p);
      FilterConcat(before, after, p);
    }
  }

  /** Walking visits each matching entry once. */
  lemma {:induction false} FilterSize<K(!new)>(order: seq<K>, p: K -> bool, those: set<K>)
    requires forall i, j :: 0 <= i < j < |order| ==> order[i] != order[j]
    requires forall k :: k in those <==> k in order && p(k)
    ensures |Filter(order, p)| == |those|
  {
    if order == [] {
      assert those == {};
    } else {
      var init, last := order[..|order| - 1], order[|order| - 1];
      assert order == init + [last];
      FilterSize(init, p, those - {last});
      FilterSnoc(init, last, p);
    }
  }

  lemma WalkSize<K(!new)>(order: seq<K>, m: map<K, int>)
    requires Walks(order, m)
    ensures |order| == |m|
  {
    FilterSize(order, k => true, m.Keys);
    FilterAll(order, k => true);
  }

  /** The entry half-way up the sorted waits is the upper median. */
  lemma MedianFound<K(!new)>(order: seq<K>, m: map<K, int>, sorted: seq<int>, cut: int)
    requires Walks(order, m) && m != map[]
    requires sorted == SortBy(TotalsOf(order, m), TotalKey)
    requires |sorted| == |m| && cut == sorted[|m| / 2]
    ensures UpperMedian(m, cut)
  {
    var totals, half := TotalsOf(order, m), |m| / 2;
    SortByMeaning(totals, TotalKey);
    var (over, below) := ((t: int) => t > cut, (t: int) => t < cut);
    FilterSize(order, Above(m, cut), Those(m, Above(m, cut)));
    FilterSize(order, Under(m, cut), Those(m, Under(m, cut)));
    FilterTotals(order, m, Above(m, cut), over);
    FilterTotals(order, m, Under(m, cut), below);
    FilterCount(totals, sorted, over);
    FilterCount(totals, sorted, below);
    HalfBelow(sorted, half, cut, over, below);
  }

  lemma HalfBelow(sorted: seq<int>, half: nat, cut: int, over: int -> bool, below: int -> bool)
    requires SortedBy(sorted, TotalKey) && half < |sorted| && sorted[half] == cut
    requires forall t :: over(t) == (t > cut) && below(t) == (t < cut)
    ensures |Filter(sorted, over)| < |sorted| - half && |Filter(sorted, below)| <= half
  {
    forall i | 0 <= i < |sorted| ensures i <= half ==> sorted[i] <= cut
      ensures half <= i ==> sorted[i] >= cut
    {
      assert i < half ==> KeyLe(TotalKey(sorted[i]), TotalKey(sorted[half]));
      assert half < i ==> KeyLe(TotalKey(sorted[half]), TotalKey(sorted[i]));
    }
    FilterSlice(sorted, over, half + 1, |sorted|);
    FilterSlice(sorted, below, 0, half);
    FilterMembers(sorted[half + 1..|sorted|], over);
    FilterMembers(sorted[0..half], below);
  }

  lemma OverAndUnder<K(!new)>(m: map<K, int>, low: int, high: int)
    requires low < high
    ensures |Those(m, Above(m, low))| + |Those(m, Under(m, high))| >= |m|
  {
    var over, under := Those(m, Above(m, low)), Those(m, Under(m, high));
    assert over + under == m.Keys;
  }

  /** There is one upper median, whatever the walk. */
  lemma MedianUnique<K(!new)>(m: map<K, int>, a: int, b: int)
    requires UpperMedian(m, a) && UpperMedian(m, b)
    ensures a == b
  {
    if a != b {
      OverAndUnder(m, Min(a, b), Max(a, b));
    }
  }

  // ---- Capping ----------------------------------------------------------------------------------

  /** What the map still holds after the first `i` entries of the walk were decided. */
  function Partway<K>(m: map<K, int>, order: seq<K>, i: nat, cut: int, room: nat): map<K, int>
    requires i <= |order|
  {
    map k | k in m && (k in order[i..] || k in FirstAbove(order[..i], m, cut, room)) :: m[k]
  }

  lemma FirstAboveNext<K(!new)>(order: seq<K>, k: K, m: map<K, int>, cut: int, room: nat)
    ensures FirstAbove(order + [k], m, cut, room)
      == if Above(m, cut)(k) && |FirstAbove(order, m, cut, room)| < room then FirstAbove(order, m, cut, room) + [k]
         else FirstAbove(order, m, cut, room)
    ensures forall x :: x in FirstAbove(order, m, cut, room) ==> x in order
  {
    FilterSnoc(order, k, Above(m, cut));
    FilterMembers(order, Above(m, cut));
  }

  lemma WalkNext<K(!new)>(m: map<K, int>, order: seq<K>, i: nat, k: K)
    requires Walks(order, m) && i < |order|
    ensures k in order[i..] <==> k == order[i] || k in order[i + 1..]
    ensures order[i] !in order[..i] && order[i] !in order[i + 1..]
  {
    assert order[i..] == [order[i]] + order[i + 1..];
  }

  lemma {:induction false} PartwayKey<K(!new)>(m: map<K, int>, order: seq<K>, i: nat, cut: int, room: nat, k: K)
    requires Walks(order, m) && i < |order| && k in m
    ensures k in Partway(m, order, i + 1, cut, room) <==>
      if k == order[i] then m[k] > cut && |FirstAbove(order[..i], m, cut, room)| < room else k in Partway(m, order, i, cut, room)
  {
    assert order[..i + 1] == order[..i] + [order[i]];
    FirstAboveNext(order[..i], order[i], m, cut, room);
    WalkNext(m, order, i, k);
  }

  lemma {:induction false} PartwayNext<K(!new)>(m: map<K, int>, order: seq<K>, i: nat, cut: int, room: nat)
    requires Walks(order, m) && i < |order|
    ensures Partway(m, order, i + 1, cut, room)
      == if m[order[i]] > cut && |FirstAbove(order[..i], m, cut, room)| < room then Partway(m, order, i, cut, room)
         else Partway(m, order, i, cut, room) - {order[i]}
  {
    var was, now := Partway(m, order, i, cut, room), Partway(m, order, i + 1, cut, room);
    var stays := m[order[i]] > cut && |FirstAbove(order[..i], m, cut, room)| < room;
    forall k | k in m ensures k in now <==> if k == order[i] then stays else k in was {
      PartwayKey(m, order, i, cut, room, k);
    }
    assert order[i] in was by {
      assert order[i..][0] == order[i];
    }
    assert now.Keys == if stays then was.Keys else was.Keys - {order[i]};
  }

  /** Keep the entries above the upper median, while there is room for half the cap. */
  method CapByWait<K(==,!new)>(m: map<K, int>, order: seq<K>, cap: nat) returns (kept: map<K, int>)
    requires Walks(order, m)
    ensures |m| <= cap ==> kept == m
    ensures |m| > cap ==> exists cut ::
      UpperMedian(m, cut) && kept == Restrict(m, FirstAbove(order, m, cut, cap / 2))
    ensures |m| == cap + 1 ==> LongestKept(m, kept) && |kept| <= cap / 2
  {
    if |m| <= cap {
      return m;
    }
    WalkSize(order, m);
    var sorted := SortBy(TotalsOf(order, m), TotalKey);
    SortByMeaning(TotalsOf(order, m), TotalKey);
    var cut := sorted[|sorted| / 2];
    MedianFound(order, m, sorted, cut);
    kept := Retain(m, order, cut, cap / 2);
    if |m| == cap + 1 {
      OneOverKeepsTheLongest(m, order, cap, cut, kept);
    }
  }

  method Retain<K(==,!new)>(m: map<K, int>, order: seq<K>, cut: int, most: nat) returns (kept: map<K, int>)
    requires Walks(order, m)
    ensures kept == Restrict(m, FirstAbove(order, m, cut, most))
  {
    var room := most;
    kept := m;
    for i := 0 to |order|
      invariant kept == Partway(m, order, i, cut, most)
      invariant room == most - |FirstAbove(order[..i], m, cut, most)|
    {
      var k := order[i];
      FirstAboveAt(m, order, i, cut, most);
      PartwayNext(m, order, i, cut, most);
      if m[k] <= cut || room == 0 {
        kept := kept - {k};
      } else {
        room := room - 1;
      }
    }
    PartwayEnd(m, order, cut, most);
  }

  lemma FirstAboveAt<K(!new)>(m: map<K, int>, order: seq<K>, i: nat, cut: int, room: nat)
    requires i < |order| && order[i] in m
    ensures |FirstAbove(order[..i], m, cut, room)| <= room
    ensures |FirstAbove(order[..i + 1], m, cut, room)| == |FirstAbove(order[..i], m, cut, room)|
      + (if m[order[i]] > cut && |FirstAbove(order[..i], m, cut, room)| < room then 1 else 0)
  {
    assert order[..i + 1] == order[..i] + [order[i]];
    FirstAboveNext(order[..i], order[i], m, cut, room);
  }

  lemma PartwayEnd<K(!new)>(m: map<K, int>, order: seq<K>, cut: int, room: nat)
    ensures Partway(m, order, |order|, cut, room) == Restrict(m, FirstAbove(order, m, cut, room))
  {
    assert order[..|order|] == order;
  }

  lemma FirstAboveMeaning<K(!new)>(order: seq<K>, m: map<K, int>, cut: int, room: nat)
    requires Walks(order, m)
    ensures var kept := Restrict(m, FirstAbove(order, m, cut, room));
      && kept.Keys <= Those(m, Above(m, cut))
      && |kept| == Min(room, |Those(m, Above(m, cut))|)
  {
    var over, those := Filter(order, Above(m, cut)), Those(m, Above(m, cut));
    FilterMembers(order, Above(m, cut));
    FilterSize(order, Above(m, cut), those);
    FilterDistinct(order, Above(m, cut));
    var first := FirstAbove(order, m, cut, room);
    assert forall k :: k in first ==> k in over;
    FilterAll(first, Above(m, cut));
    FilterSize(first, Above(m, cut), Restrict(m, first).Keys);
  }

  lemma {:induction false} FilterDistinct<T(!new)>(s: seq<T>, p: T -> bool)
    requires forall i, j :: 0 <= i < j < |s| ==> s[i] != s[j]
    ensures forall i, j :: 0 <= i < j < |Filter(s, p)| ==> Filter(s, p)[i] != Filter(s, p)[j]
  {
    if s != [] {
      var init, last := s[..|s| - 1], s[|s| - 1];
      assert s == init + [last];
      FilterDistinct(init, p);
      FilterMembers(init, p);
      assert last !in init;
      forall i | 0 <= i < |Filter(init, p)| ensures Filter(init, p)[i] != last {
        assert Filter(init, p)[i] in Filter(init, p);
      }
    }
  }

  /** Capped as soon as it grows one past the cap, the tally keeps exactly the entries strictly above
      the upper median, whatever the walk: the room for them never runs out, and everything kept
      waited longer than everything dropped. */
  lemma OneOverKeepsTheLongest<K(!new)>(m: map<K, int>, order: seq<K>, cap: nat, cut: int, kept: map<K, int>)
    requires Walks(order, m) && UpperMedian(m, cut) && |m| == cap + 1
    requires kept == Restrict(m, FirstAbove(order, m, cut, cap / 2))
    ensures kept.Keys == Those(m, Above(m, cut)) && |kept| <= cap / 2 && LongestKept(m, kept)
  {
    var those := Those(m, Above(m, cut));
    FirstAboveMeaning(order, m, cut, cap / 2);
    assert |those| <= cap / 2;
    SubsetSize(kept.Keys, those);
  }

  lemma SubsetSize<K>(a: set<K>, b: set<K>)
    requires a <= b && |a| == |b|
    ensures a == b
  {
    assert |b - a| == 0;
  }

  /** On any larger map half the cap still bounds what is left, and all of it lies above the median. */
  lemma AnySizeIsBounded<K(!new)>(m: map<K, int>, order: seq<K>, cap: nat, cut: int, kept: map<K, int>)
    requires Walks(order, m) && UpperMedian(m, cut)
    requires kept == Restrict(m, FirstAbove(order, m, cut, cap / 2))
    ensures |kept| == Min(cap / 2, |Those(m, Above(m, cut))|)
    ensures forall k :: k in kept ==> k in m && kept[k] == m[k] > cut
  {
    FirstAboveMeaning(order, m, cut, cap / 2);
    forall k | k in kept ensures m[k] > cut {
      assert k in Those(m, Above(m, cut));
    }
  }

  /** Whatever the walk, only the longest waits stay. */
  ghost predicate LongestKeptAlways<K(!new)>(m: map<K, int>, cut: int, room: nat) {
    forall order | Walks(order, m) :: LongestKept(m, Restrict(m, FirstAbove(order, m, cut, room)))
  }

  /** The room for half the cap spoils that exactly when it is not empty and more entries than it
      holds lie above the cut: then which of them stay is up to the walk. */
  lemma LongestKeptExactly<K(!new)>(m: map<K, int>, cut: int, room: nat)
    ensures LongestKeptAlways(m, cut, room) <==> room == 0 || |Those(m, Above(m, cut))| <= room
  {
    forall order | Walks(order, m) && (room == 0 || |Those(m, Above(m, cut))| <= room)
      ensures LongestKept(m, Restrict(m, FirstAbove(order, m, cut, room)))
    {
      RoomEnough(m, order, cut, room);
    }
    if 0 < room < |Those(m, Above(m, cut))| {
      var order := RoomBites(m, cut, room);
    }
  }

  lemma RoomEnough<K(!new)>(m: map<K, int>, order: seq<K>, cut: int, room: nat)
    requires Walks(order, m) && (room == 0 || |Those(m, Above(m, cut))| <= room)
    ensures LongestKept(m, Restrict(m, FirstAbove(order, m, cut, room)))
  {
    FirstAboveMeaning(order, m, cut, room);
    if room > 0 {
      SubsetSize(Restrict(m, FirstAbove(order, m, cut, room)).Keys, Those(m, Above(m, cut)));
    }
  }

  /** A walk that meets the least of them first keeps it and drops a longer or equal wait. */
  lemma RoomBites<K(!new)>(m: map<K, int>, cut: int, room: nat) returns (order: seq<K>)
    requires 0 < room < |Those(m, Above(m, cut))|
    ensures Walks(order, m) && !LongestKept(m, Restrict(m, FirstAbove(order, m, cut, room)))
  {
    var those := Those(m, Above(m, cut));
    var x := LeastOf(m, those);
    var rest := SomeOrder(m.Keys - {x});
    order := [x] + rest;
    var kept := Restrict(m, FirstAbove(order, m, cut, room));
    FirstAboveMeaning(order, m, cut, room);
    MetFirst(order, m, cut, room);
    var d := Left(those, kept.Keys);
    assert x in kept && d !in kept && m[d] >= m[x];
  }

  lemma MetFirst<K(!new)>(order: seq<K>, m: map<K, int>, cut: int, room: nat)
    requires room > 0 && order != [] && Above(m, cut)(order[0])
    ensures order[0] in FirstAbove(order, m, cut, room)
  {
    var x, rest := order[0], order[1..];
    assert order == [x] + rest;
    FilterSnoc([], x, Above(m, cut));
    FilterConcat([x], rest, Above(m, cut));
    assert FirstAbove(order, m, cut, room)[0] == x;
  }

  lemma Left<T>(all: set<T>, some: set<T>) returns (x: T)
    requires |some| < |all|
    ensures x in all && x !in some
  {
    assert all <= some ==> |some - all| == |some| - |all|;
    x :| x in all && x !in some;
  }

  lemma {:induction false} LeastOf<K(!new)>(m: map<K, int>, those: set<K>) returns (x: K)
    requires those != {} && those <= m.Keys
    ensures x in those && forall k :: k in those ==> m[x] <= m[k]
    decreases |those|
  {
    x :| x in those;
    if those != {x} {
      var y := LeastOf(m, those - {x});
      if m[y] < m[x] {
        x := y;
      }
    }
  }

  lemma {:induction false} SomeOrder<K(!new)>(keys: set<K>) returns (order: seq<K>)
    ensures forall k :: k in order <==> k in keys
    ensures forall i, j :: 0 <= i < j < |order| ==> order[i] != order[j]
    decreases |keys|
  {
    order := [];
    if keys != {} {
      var k :| k in keys;
      var rest := SomeOrder(keys - {k});
      order := rest + [k];
    }
  }
}
