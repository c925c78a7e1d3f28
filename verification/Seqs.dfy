/** Filtering, sorting and boundary search over sequences: the library operations the source
    leans on, with what it relies on them for. */
module Seqs {
  import opened Trace

  /** The elements satisfying `p`, in order. */
  function Filter<T>(s: seq<T>, p: T -> bool): seq<T> {
    if s == [] then []
    else
      var rest := Filter(s[..|s| - 1], p);
      if p(s[|s| - 1]) then rest + [s[|s| - 1]] else rest
  }

  lemma {:induction false} FilterMembers<T(!new)>(s: seq<T>, p: T -> bool)
    ensures forall x :: x in Filter(s, p) <==> x in s && p(x)
    ensures |Filter(s, p)| <= |s|
  {
    if s != [] {
      FilterMembers(s[..|s| - 1], p);
      assert s == s[..|s| - 1] + [s[|s| - 1]];
    }
  }

  lemma {:induction false} FilterConcat<T(!new)>(a: seq<T>, b: seq<T>, p: T -> bool)
    ensures Filter(a + b, p) == Filter(a, p) + Filter(b, p)
  {
    if b == [] {
      assert a + b == a;
    } else {
      assert (a + b)[..|a + b| - 1] == a + b[..|b| - 1];
      FilterConcat(a, b[..|b| - 1], p);
    }
  }

  lemma {:induction false} FilterSame<T(!new)>(s: seq<T>, p: T -> bool, q: T -> bool)
    requires forall x :: x in s ==> p(x) == q(x)
    ensures Filter(s, p) == Filter(s, q)
  {
    if s != [] {
      assert forall x :: x in s[..|s| - 1] ==> x in s;
      FilterSame(s[..|s| - 1], p, q);
    }
  }

  lemma {:induction false} FilterAll<T(!new)>(s: seq<T>, p: T -> bool)
    requires forall x :: x in s ==> p(x)
    ensures Filter(s, p) == s
  {
    if s != [] {
      assert forall x :: x in s[..|s| - 1] ==> x in s;
      FilterAll(s[..|s| - 1], p);
      assert s == s[..|s| - 1] + [s[|s| - 1]];
    }
  }

  lemma {:induction false} FilterNone<T(!new)>(s: seq<T>, p: T -> bool)
    requires forall x :: x in s ==> !p(x)
    ensures Filter(s, p) == []
  {
    if s != [] {
      assert forall x :: x in s[..|s| - 1] ==> x in s;
      FilterNone(s[..|s| - 1], p);
    }
  }

  lemma FilterSnoc<T>(s: seq<T>, x: T, p: T -> bool)
    ensures Filter(s + [x], p) == if p(x) then Filter(s, p) + [x] else Filter(s, p)
  {
    assert (s + [x])[..|s|] == s;
  }

  lemma FilterEmpty<T(!new)>(s: seq<T>, p: T -> bool)
    ensures |Filter(s, p)| == 0 <==> forall x :: x in s ==> !p(x)
  {
    FilterMembers(s, p);
    if forall x :: x in s ==> !p(x) {
      FilterNone(s, p);
    }
  }

  /** Filtering twice keeps what passes both tests. */
  lemma {:induction false} FilterTwice<T(!new)>(s: seq<T>, p: T -> bool, q: T -> bool, both: T -> bool)
    requires forall x :: x in s ==> both(x) == (p(x) && q(x))
    ensures Filter(Filter(s, p), q) == Filter(s, both)
  {
    if s != [] {
      var init, last := s[..|s| - 1], s[|s| - 1];
      assert forall x :: x in init ==> x in s;
      assert last in s;
      FilterTwice(init, p, q, both);
      if p(last) {
        FilterConcat(Filter(init, p), [last], q);
        assert Filter([last], q) == if q(last) then [last] else [];
      }
    }
  }

  lemma NonePass<T(!new)>(s: seq<T>, p: T -> bool, a: nat, b: nat)
    requires a <= b <= |s| && forall i :: a <= i < b ==> !p(s[i])
    ensures Filter(s[a..b], p) == []
  {
    var part := s[a..b];
    forall x | x in part ensures !p(x) {
      var k :| 0 <= k < |part| && part[k] == x;
      assert s[a + k] == x;
    }
    FilterNone(part, p);
  }

  /** Only a stretch of `s` can pass: what lies outside it may be left unread. */
  lemma {:induction false} FilterSlice<T(!new)>(s: seq<T>, p: T -> bool, a: nat, b: nat)
    requires a <= b <= |s|
    requires forall i :: 0 <= i < a || b <= i < |s| ==> !p(s[i])
    ensures Filter(s[a..b], p) == Filter(s, p)
  {
    NonePass(s, p, 0, a);
    NonePass(s, p, b, |s|);
    FilterMiddle(s[0..a], s[a..b], s[b..|s|], p);
    InThree(s, a, b);
  }

  lemma InThree<T>(s: seq<T>, a: nat, b: nat)
    requires a <= b <= |s|
    ensures s == s[0..a] + s[a..b] + s[b..|s|]
  {}

  lemma FilterMiddle<T(!new)>(before: seq<T>, inside: seq<T>, after: seq<T>, p: T -> bool)
    requires Filter(before, p) == [] && Filter(after, p) == []
    ensures Filter(before + inside + after, p) == Filter(inside, p)
  {
    FilterConcat(before + inside, after, p);
    FilterConcat(before, inside, p);
    assert [] + Filter(inside, p) + [] == Filter(inside, p);
  }

  /** Inside a stretch of time, both ends included. */
  function Within<T>(ts: T -> int, from: int, to: int): T -> bool {
    x => from <= ts(x) <= to
  }

  // ---- Searching from the back ------------------------------------------------------------------

  /** The last element satisfying `p`. */
  function Last<T>(s: seq<T>, p: T -> bool): Option<T> {
    if s == [] then None
    else if p(s[|s| - 1]) then Some(s[|s| - 1])
    else Last(s[..|s| - 1], p)
  }

  lemma {:induction false} LastFacts<T(!new)>(s: seq<T>, p: T -> bool)
    ensures Last(s, p).Some? ==> Last(s, p).value in s && p(Last(s, p).value)
    ensures Last(s, p).None? <==> forall x :: x in s ==> !p(x)
  {
    if s != [] {
      var init := s[..|s| - 1];
      assert s == init + [s[|s| - 1]];
      LastFacts(init, p);
    }
  }

  /** `x` satisfies `p` and nothing after it does. */
  ghost predicate IsLast<T(!new)>(s: seq<T>, p: T -> bool, x: T) {
    exists i :: 0 <= i < |s| && s[i] == x && p(x) && forall j :: i < j < |s| ==> !p(s[j])
  }

  lemma {:induction false} LastExactly<T(!new)>(s: seq<T>, p: T -> bool, x: T)
    ensures Last(s, p) == Some(x) <==> IsLast(s, p, x)
  {
    if s != [] {
      var init, n := s[..|s| - 1], |s| - 1;
      LastExactly(init, p, x);
      if !p(s[n]) {
        if i :| 0 <= i < |s| && s[i] == x && p(x) && forall j :: i < j < |s| ==> !p(s[j]) {
          assert i < n && init[i] == x && forall j :: i < j < n ==> !p(init[j]);
        }
        if i :| 0 <= i < n && init[i] == x && p(x) && forall j :: i < j < n ==> !p(init[j]) {
          assert s[i] == x && forall j :: i < j < |s| ==> !p(s[j]);
        }
      } else {
        assert IsLast(s, p, s[n]) by {
          assert s[n] == s[n];
        }
      }
    }
  }

  /** What comes after decides, when any of it satisfies `p`. */
  lemma {:induction false} LastConcat<T>(a: seq<T>, b: seq<T>, p: T -> bool)
    ensures Last(a + b, p) == if Last(b, p).Some? then Last(b, p) else Last(a, p)
  {
    if b == [] {
      assert a + b == a;
    } else {
      assert (a + b)[..|a + b| - 1] == a + b[..|b| - 1];
      LastConcat(a, b[..|b| - 1], p);
    }
  }

  /** Leaving out elements that do not satisfy `p` does not change its last. */
  lemma {:induction false} LastFiltered<T(!new)>(s: seq<T>, keep: T -> bool, p: T -> bool)
    requires forall x :: x in s && p(x) ==> keep(x)
    ensures Last(Filter(s, keep), p) == Last(s, p)
  {
    if s != [] {
      var init, last := s[..|s| - 1], s[|s| - 1];
      assert s == init + [last];
      LastFiltered(init, keep, p);
      if keep(last) {
        assert (Filter(init, keep) + [last])[..|Filter(init, keep)|] == Filter(init, keep);
      }
    }
  }

  /** The newest of them, on a list in time order. */
  lemma {:induction false} LastIsNewest<T(!new)>(s: seq<T>, ts: T -> int, p: T -> bool)
    requires TimeOrdered(s, ts)
    ensures forall x :: x in s && p(x) ==> Last(s, p).Some? && ts(x) <= ts(Last(s, p).value)
  {
    if s != [] {
      LastIsLatest(s, ts);
      LastIsNewest(s[..|s| - 1], ts, p);
    }
  }

  lemma OnlyOne<T(!new)>(x: T, p: T -> bool)
    ensures Filter([x], p) == if p(x) then [x] else []
    ensures Last([x], p) == if p(x) then Some(x) else None
  {
    assert [x] == [] + [x];
    assert [x][..0] == [];
    FilterSnoc([], x, p);
  }

  // ---- Binary search ----------------------------------------------------------------------------

  /** Binary search for where `pred` stops holding. On a sequence that is not partitioned by
      `pred` all it promises is that the answer sits on a boundary. */
  method PartitionPoint<T>(s: seq<T>, pred: T -> bool) returns (k: nat)
    ensures k <= |s|
    ensures k > 0 ==> pred(s[k - 1])
    ensures k < |s| ==> !pred(s[k])
  {
    var lo, hi := 0, |s|;
    while lo < hi
      invariant 0 <= lo <= hi <= |s|
      invariant lo > 0 ==> pred(s[lo - 1])
      invariant hi < |s| ==> !pred(s[hi])
    {
      var mid := lo + (hi - lo) / 2;
      if pred(s[mid]) {
        lo := mid + 1;
      } else {
        hi := mid;
      }
    }
    k := lo;
  }

  // ---- Dropping from the front ------------------------------------------------------------------

  /** Drops from the front while the front is older than `cutoff`. */
  function DropOlder<T>(s: seq<T>, ts: T -> int, cutoff: int): seq<T> {
    if s != [] && ts(s[0]) < cutoff then DropOlder(s[1..], ts, cutoff) else s
  }

  /** `r` is what is left of `s` from the first element at or after the cutoff on. */
  ghost predicate IsCut<T(!new)>(s: seq<T>, r: seq<T>, ts: T -> int, cutoff: int) {
    && |r| <= |s| && r == s[|s| - |r|..]
    && (forall i :: 0 <= i < |s| - |r| ==> ts(s[i]) < cutoff) && (r != [] ==> ts(r[0]) >= cutoff)
  }

  lemma {:induction false} DropOlderCuts<T(!new)>(s: seq<T>, ts: T -> int, cutoff: int)
    ensures IsCut(s, DropOlder(s, ts, cutoff), ts, cutoff)
  {
    if s != [] && ts(s[0]) < cutoff {
      DropOlderCuts(s[1..], ts, cutoff);
    }
  }

  method PopOlder<T(!new)>(s: seq<T>, ts: T -> int, cutoff: int) returns (r: seq<T>)
    ensures r == DropOlder(s, ts, cutoff) && IsCut(s, r, ts, cutoff)
  {
    DropOlderCuts(s, ts, cutoff);
    r := s;
    while r != [] && ts(r[0]) < cutoff
      invariant DropOlder(r, ts, cutoff) == DropOlder(s, ts, cutoff)
      decreases |r|
    {
      r := r[1..];
    }
  }

  // ---- Stamps -------------------------------------------------------------------------------

  function Stamps<T>(s: seq<T>, ts: T -> int): seq<int> { seq(|s|, i requires 0 <= i < |s| => ts(s[i])) }

  /** The newest of these, if there is any. */
  ghost predicate IsNewest(newest: Option<int>, stamps: seq<int>) {
    && (newest.None? <==> stamps == [])
    && (newest.Some? ==> newest.value in stamps && forall t :: t in stamps ==> t <= newest.value)
  }

  lemma NewestNext(newest: Option<int>, stamps: seq<int>, t: int)
    requires IsNewest(newest, stamps)
    ensures IsNewest(LaterOf(newest, t), stamps + [t])
  {
    assert t in stamps + [t];
    assert newest.Some? ==> newest.value in stamps + [t];
  }

  // ---- Sorting ------------------------------------------------------------------------------

  /** Sort keys are pairs, compared first by the first half. */
  type Key = (int, int)

  predicate KeyLe(a: Key, b: Key) {
    a.0 < b.0 || (a.0 == b.0 && a.1 <= b.1)
  }

  ghost predicate SortedBy<T(!new)>(s: seq<T>, key: T -> Key) {
    forall i, j :: 0 <= i < j < |s| ==> KeyLe(key(s[i]), key(s[j]))
  }

  function InsertSorted<T>(s: seq<T>, x: T, key: T -> Key): seq<T> {
    if s == [] || KeyLe(key(s[|s| - 1]), key(x)) then s + [x]
    else InsertSorted(s[..|s| - 1], x, key) + [s[|s| - 1]]
  }

  /** A stable sort: equal keys keep their order. */
  function SortBy<T>(s: seq<T>, key: T -> Key): seq<T> {
    if s == [] then [] else InsertSorted(SortBy(s[..|s| - 1], key), s[|s| - 1], key)
  }

  lemma LastIsGreatest<T(!new)>(s: seq<T>, y: T, key: T -> Key)
    requires SortedBy(s, key) && s != [] && y in s
    ensures KeyLe(key(y), key(s[|s| - 1]))
  {
    var k :| 0 <= k < |s| && s[k] == y;
  }

  lemma SortedSnoc<T(!new)>(s: seq<T>, y: T, key: T -> Key)
    requires SortedBy(s, key) && forall z :: z in s ==> KeyLe(key(z), key(y))
    ensures SortedBy(s + [y], key)
  {}

  lemma {:induction false} InsertSortedMeaning<T(!new)>(s: seq<T>, x: T, key: T -> Key)
    requires SortedBy(s, key)
    ensures multiset(InsertSorted(s, x, key)) == multiset(s) + multiset{x}
    ensures SortedBy(InsertSorted(s, x, key), key)
  {
    if s == [] || KeyLe(key(s[|s| - 1]), key(x)) {
      forall z | z in s ensures KeyLe(key(z), key(x)) {
        LastIsGreatest(s, z, key);
      }
      SortedSnoc(s, x, key);
    } else {
      var init, last := s[..|s| - 1], s[|s| - 1];
      assert s == init + [last];
      InsertSortedMeaning(init, x, key);
      var r := InsertSorted(init, x, key);
      forall z | z in r ensures KeyLe(key(z), key(last)) {
        assert z in multiset(r);
        if z != x {
          LastIsGreatest(s, z, key);
        }
      }
      SortedSnoc(r, last, key);
    }
  }

  /** Sorting rearranges and orders. */
  lemma {:induction false} SortByMeaning<T(!new)>(s: seq<T>, key: T -> Key)
    ensures multiset(SortBy(s, key)) == multiset(s)
    ensures SortedBy(SortBy(s, key), key)
    ensures |SortBy(s, key)| == |s|
    ensures forall x :: x in SortBy(s, key) <==> x in s
  {
    if s != [] {
      var init, last := s[..|s| - 1], s[|s| - 1];
      assert s == init + [last];
      SortByMeaning(init, key);
      InsertSortedMeaning(SortBy(init, key), last, key);
    }
    SameMultiset(SortBy(s, key), s);
  }

  lemma SameMultiset<T(!new)>(a: seq<T>, b: seq<T>)
    requires multiset(a) == multiset(b)
    ensures |a| == |b|
    ensures forall x :: x in a <==> x in b
  {
    assert |a| == |multiset(a)| && |b| == |multiset(b)|;
    forall x ensures x in a <==> x in b {
      assert x in a <==> x in multiset(a);
      assert x in b <==> x in multiset(b);
    }
  }

  /** Distinct elements whose keys end in an identity come out in strict order. */
  lemma SortedStrictly<T(!new)>(s: seq<T>, key: T -> Key)
    requires forall a, b :: 0 <= a < b < |s| ==> key(s[a]).1 != key(s[b]).1
    ensures var r := SortBy(s, key);
      forall a, b :: 0 <= a < b < |r| ==>
        key(r[a]).0 < key(r[b]).0 || (key(r[a]).0 == key(r[b]).0 && key(r[a]).1 < key(r[b]).1)
  {
    SortByMeaning(s, key);
    var r := SortBy(s, key);
    forall a, b | 0 <= a < b < |r| ensures key(r[a]).1 != key(r[b]).1 {
      if key(r[a]).1 == key(r[b]).1 {
        assert r[a] in r && r[b] in r;
        var i :| 0 <= i < |s| && s[i] == r[a];
        var j :| 0 <= j < |s| && s[j] == r[b];
        assert i == j;
        TwiceInMultiset(r, a, b);
        OnceInMultiset(s, i);
      }
    }
  }

  lemma TwiceInMultiset<T>(s: seq<T>, a: nat, b: nat)
    requires a < b < |s| && s[a] == s[b]
    ensures multiset(s)[s[a]] >= 2
  {
    assert s == s[..a] + [s[a]] + s[a + 1..b] + [s[b]] + s[b + 1..];
  }

  lemma OnceInMultiset<T>(s: seq<T>, i: nat)
    requires i < |s| && forall j :: 0 <= j < |s| && j != i ==> s[j] != s[i]
    ensures multiset(s)[s[i]] == 1
  {
    assert s == s[..i] + [s[i]] + s[i + 1..];
    assert s[i] !in s[..i] && s[i] !in s[i + 1..];
    assert s[i] !in multiset(s[..i]) && s[i] !in multiset(s[i + 1..]);
  }
}
