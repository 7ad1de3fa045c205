/** Sorting GeoIP ranges and dropping the ones that overlap an earlier one. */
module GeoRanges {
  import opened Common
  import opened Lists
  import opened GeoModel

  predicate Below(a: GeoRange, b: GeoRange) {
    if a.start == b.start then a.end < b.end else a.start < b.start
  }

  predicate Proper(r: GeoRange) {
    r.start <= r.end
  }

  predicate Overlap(a: GeoRange, b: GeoRange) {
    a.start <= b.end && b.start <= a.end
  }

  /** The greedy choice: a proper range that starts after the last kept one is kept. */
  function Greedy(s: seq<GeoRange>, last: Option<U32>): seq<GeoRange> {
    if s == [] then []
    else if s[0].end < s[0].start || (last.Some? && s[0].start <= last.value) then Greedy(s[1..], last)
    else [s[0]] + Greedy(s[1..], Some(s[0].end))
  }

  lemma BelowIsWeakOrder()
    ensures WeakOrder(Below)
  {
  }

  /** The end of the last kept range. */
  function LastEnd(s: seq<GeoRange>, last: Option<U32>): Option<U32> {
    if s == [] then last else Some(s[|s| - 1].end)
  }

  lemma {:induction false} GreedyAppend(s: seq<GeoRange>, r: GeoRange, last: Option<U32>)
    ensures Greedy(s + [r], last) == Greedy(s, last) + Greedy([r], LastEnd(Greedy(s, last), last))
  {
    if s == [] {
      assert [] + [r] == [r];
    } else {
      assert (s + [r])[1..] == s[1..] + [r];
      if s[0].end < s[0].start || (last.Some? && s[0].start <= last.value) {
        GreedyAppend(s[1..], r, last);
      } else {
        GreedyAppend(s[1..], r, Some(s[0].end));
        var rest := Greedy(s[1..], Some(s[0].end));
        assert LastEnd([s[0]] + rest, last) == LastEnd(rest, Some(s[0].end));
      }
    }
  }

  lemma GreedyOne(r: GeoRange, last: Option<U32>)
    ensures Greedy([r], last) == if r.end < r.start || (last.Some? && r.start <= last.value) then [] else [r]
  {
    assert [r][1..] == [];
  }

  /** Sorts a copy and keeps the greedy choice, counting what is dropped. */
  method NormalizeRanges(ranges: seq<GeoRange>) returns (clean: seq<GeoRange>, skipped: nat, ghost sorted: seq<GeoRange>)
    ensures SortedCopy(Below, ranges, sorted)
    ensures clean == Greedy(sorted, None)
    ensures |clean| + skipped == |ranges|
  {
    BelowIsWeakOrder();
    var out := SortSlice(ranges, Below);
    sorted := out;
    assert |out| == |multiset(out)| == |multiset(ranges)| == |ranges|;
    clean, skipped := [], 0;
    var i := 0;
    while i < |out|
      invariant i <= |out|
      invariant clean == Greedy(out[..i], None) && |clean| + skipped == i
    {
      var r := out[i];
      assert out[..i + 1] == out[..i] + [r];
      GreedyAppend(out[..i], r, None);
      GreedyOne(r, LastEnd(clean, None));
      if r.end < r.start {
        skipped := skipped + 1;
      } else if |clean| > 0 && r.start <= clean[|clean| - 1].end {
        skipped := skipped + 1;
      } else {
        clean := clean + [r];
      }
      i := i + 1;
    }
    assert out[..i] == out;
  }

  // ---- what is kept ----

  /** In order, each range proper and ending before the next begins. */
  ghost predicate Apart(s: seq<GeoRange>) {
    (forall i :: 0 <= i < |s| ==> Proper(s[i])) &&
    forall i, j :: 0 <= i < j < |s| ==> s[i].end < s[j].start
  }

  lemma ApartCons(r: GeoRange, s: seq<GeoRange>)
    requires Proper(r) && Apart(s) && (s != [] ==> r.end < s[0].start)
    ensures Apart([r] + s)
  {
    var t := [r] + s;
    forall i, j | 0 <= i < j < |t|
      ensures t[i].end < t[j].start
    {
      assert t[j] == s[j - 1];
      if i > 0 {
        assert t[i] == s[i - 1];
      } else if j > 1 {
        assert s[0].end < s[j - 1].start;
      }
    }
  }

  lemma {:induction false} GreedyIsApart(s: seq<GeoRange>, last: Option<U32>)
    ensures Apart(Greedy(s, last))
    ensures last.Some? && Greedy(s, last) != [] ==> last.value < Greedy(s, last)[0].start
  {
    if s != [] {
      if s[0].end < s[0].start || (last.Some? && s[0].start <= last.value) {
        GreedyIsApart(s[1..], last);
      } else {
        GreedyIsApart(s[1..], Some(s[0].end));
        ApartCons(s[0], Greedy(s[1..], Some(s[0].end)));
      }
    }
  }

  /** a begins before r, or together with it and ends no later. */
  predicate NotAfter(a: GeoRange, r: GeoRange) {
    a.start < r.start || (a.start == r.start && a.end <= r.end)
  }

  /** A kept range overlaps r and does not come after it. */
  ghost predicate OverlapsOne(kept: seq<GeoRange>, r: GeoRange) {
    exists k :: 0 <= k < |kept| && Overlap(kept[k], r) && NotAfter(kept[k], r)
  }

  lemma OverlapsOneCons(first: GeoRange, kept: seq<GeoRange>, r: GeoRange)
    requires (Overlap(first, r) && NotAfter(first, r)) || OverlapsOne(kept, r)
    ensures OverlapsOne([first] + kept, r)
  {
    var all := [first] + kept;
    if Overlap(first, r) && NotAfter(first, r) {
      assert all[0] == first;
    } else {
      var k :| 0 <= k < |kept| && Overlap(kept[k], r) && NotAfter(kept[k], r);
      assert all[k + 1] == kept[k];
    }
  }

  /** A proper range of a sorted list overlaps what was kept last, or some kept range before it. */
  lemma {:induction false} DroppedOverlaps(s: seq<GeoRange>, last: Option<GeoRange>, i: nat)
    requires SortedBy(Below, s) && i < |s| && Proper(s[i])
    requires last.Some? ==> Proper(last.value) && NotAfter(last.value, s[0])
    ensures (last.Some? && Overlap(last.value, s[i]) && NotAfter(last.value, s[i])) || OverlapsOne(Greedy(s, EndOf(last)), s[i])
  {
    hide Below, OverlapsOne;
    SortedTail(Below, s);
    SortedStartsFrom(s);
    if s[0].end < s[0].start || (last.Some? && s[0].start <= last.value.end) {
      assert Greedy(s, EndOf(last)) == Greedy(s[1..], EndOf(last));
      if i > 0 {
        assert s[1..][i - 1] == s[i];
        DroppedOverlaps(s[1..], last, i - 1);
      }
    } else {
      var rest := Greedy(s[1..], Some(s[0].end));
      assert Greedy(s, EndOf(last)) == [s[0]] + rest;
      if i > 0 {
        assert s[1..][i - 1] == s[i];
        DroppedOverlaps(s[1..], Some(s[0]), i - 1);
      }
      OverlapsOneCons(s[0], rest, s[i]);
    }
  }

  function EndOf(last: Option<GeoRange>): Option<U32> {
    match last case None => None case Some(r) => Some(r.end)
  }

  lemma SortedStartsFrom(s: seq<GeoRange>)
    requires SortedBy(Below, s) && s != []
    ensures forall k :: 0 <= k < |s| ==> NotAfter(s[0], s[k])
  {
    forall k | 0 < k < |s|
      ensures NotAfter(s[0], s[k])
    {
      assert !Below(s[k], s[0]);
    }
  }

  lemma {:induction false} GreedyElements(s: seq<GeoRange>, last: Option<U32>)
    ensures multiset(Greedy(s, last)) <= multiset(s)
  {
    if s != [] {
      RemoveHead(s);
      if s[0].end < s[0].start || (last.Some? && s[0].start <= last.value) {
        GreedyElements(s[1..], last);
      } else {
        GreedyElements(s[1..], Some(s[0].end));
      }
    }
  }

  /**
   * What normalizing promises, whatever sorted copy was used: the kept ranges are
   * some of the given ones, in order and pairwise disjoint, and every proper range
   * that was given overlaps a kept one that does not come after it.
   */
  lemma NormalizedRanges(ranges: seq<GeoRange>, sorted: seq<GeoRange>)
    requires SortedCopy(Below, ranges, sorted)
    ensures var clean := Greedy(sorted, None);
      Apart(clean) && multiset(clean) <= multiset(ranges) &&
      forall i :: 0 <= i < |ranges| && Proper(ranges[i]) ==> OverlapsOne(clean, ranges[i])
  {
    hide Below, OverlapsOne;
    GreedyIsApart(sorted, None);
    GreedyElements(sorted, None);
    forall i | 0 <= i < |ranges| && Proper(ranges[i])
      ensures OverlapsOne(Greedy(sorted, None), ranges[i])
    {
      SameElements(ranges, sorted, i);
      var j :| 0 <= j < |sorted| && sorted[j] == ranges[i];
      DroppedOverlaps(sorted, None, j);
    }
  }

  // ---- nothing dropped: exactly the disjoint lists ----

  ghost predicate PairwiseDisjoint(s: seq<GeoRange>) {
    forall i, j :: 0 <= i < |s| && 0 <= j < |s| && i != j ==> !Overlap(s[i], s[j])
  }

  ghost predicate AllProper(s: seq<GeoRange>) {
    forall i :: 0 <= i < |s| ==> Proper(s[i])
  }

  lemma DisjointPerm(a: seq<GeoRange>, b: seq<GeoRange>)
    requires multiset(a) == multiset(b)
    ensures PairwiseDisjoint(a) ==> PairwiseDisjoint(b)
    ensures AllProper(a) ==> AllProper(b)
  {
    if PairwiseDisjoint(a) {
      forall i, j | 0 <= i < |b| && 0 <= j < |b| && i != j
        ensures !Overlap(b[i], b[j])
      {
        var k, l := PairOfPerm(b, a, i, j);
      }
    }
    if AllProper(a) {
      forall i | 0 <= i < |b|
        ensures Proper(b[i])
      {
        SameElements(b, a, i);
      }
    }
  }

  lemma ApartIsDisjoint(s: seq<GeoRange>)
    requires SortedBy(Below, s)
    ensures Apart(s) <==> AllProper(s) && PairwiseDisjoint(s)
  {
    if AllProper(s) && PairwiseDisjoint(s) {
      forall i, j | 0 <= i < j < |s|
        ensures s[i].end < s[j].start
      {
        assert !Below(s[j], s[i]);
        assert !Overlap(s[i], s[j]);
      }
    }
  }

  lemma {:induction false} GreedyKeepsApart(s: seq<GeoRange>, last: Option<U32>)
    requires Apart(s) && (last.Some? && s != [] ==> last.value < s[0].start)
    ensures Greedy(s, last) == s
  {
    if s != [] {
      assert s[1..] != [] ==> s[1..][0] == s[1];
      GreedyKeepsApart(s[1..], Some(s[0].end));
      assert s == [s[0]] + s[1..];
    }
  }

  lemma {:induction false} GreedyLength(s: seq<GeoRange>, last: Option<U32>)
    ensures |Greedy(s, last)| <= |s|
    ensures |Greedy(s, last)| == |s| ==> Greedy(s, last) == s
  {
    if s != [] {
      if s[0].end < s[0].start || (last.Some? && s[0].start <= last.value) {
        GreedyLength(s[1..], last);
      } else {
        GreedyLength(s[1..], Some(s[0].end));
        assert s == [s[0]] + s[1..];
      }
    }
  }

  /** Nothing is dropped exactly when all ranges are proper and pairwise disjoint. */
  lemma NothingSkipped(ranges: seq<GeoRange>, sorted: seq<GeoRange>)
    requires SortedCopy(Below, ranges, sorted)
    ensures |Greedy(sorted, None)| == |ranges| <==> AllProper(ranges) && PairwiseDisjoint(ranges)
    ensures AllProper(ranges) && PairwiseDisjoint(ranges) ==> Greedy(sorted, None) == sorted
  {
    hide Below, Overlap, Proper;
    assert |sorted| == |multiset(sorted)| == |multiset(ranges)| == |ranges|;
    DisjointPerm(ranges, sorted);
    DisjointPerm(sorted, ranges);
    ApartIsDisjoint(sorted);
    GreedyLength(sorted, None);
    GreedyIsApart(sorted, None);
    if Apart(sorted) {
      GreedyKeepsApart(sorted, None);
    }
  }

  // ---- the check before an import ----

  /** From the second range on: proper, and beginning after the one before it. */
  ghost predicate AdjacentOk(s: seq<GeoRange>) {
    forall i :: 1 <= i < |s| ==> Proper(s[i]) && s[i - 1].end < s[i].start
  }

  /** The loop over adjacent pairs of the sorted copy. */
  method CheckAdjacent(s: seq<GeoRange>) returns (ok: bool)
    ensures ok <==> AdjacentOk(s)
  {
    var i := 1;
    while i < |s|
      invariant 1 <= i && (i <= |s| || s == [])
      invariant forall k :: 1 <= k < i && k < |s| ==> Proper(s[k]) && s[k - 1].end < s[k].start
    {
      if s[i].end < s[i].start || s[i].start <= s[i - 1].end {
        return false;
      }
      i := i + 1;
    }
    ok := true;
  }

  /** No two proper ranges overlap, and an improper one is alone and below all others. */
  ghost predicate Passes(s: seq<GeoRange>) {
    forall i, j :: 0 <= i < |s| && 0 <= j < |s| && i != j ==> PairPasses(s[i], s[j])
  }

  predicate PairPasses(a: GeoRange, b: GeoRange) {
    (Proper(a) || Below(a, b)) && (Proper(b) || Below(b, a)) && (Proper(a) && Proper(b) ==> !Overlap(a, b))
  }

  lemma PassesPerm(a: seq<GeoRange>, b: seq<GeoRange>)
    requires multiset(a) == multiset(b) && Passes(a)
    ensures Passes(b)
  {
    forall i, j | 0 <= i < |b| && 0 <= j < |b| && i != j
      ensures PairPasses(b[i], b[j])
    {
      var k, l := PairOfPerm(b, a, i, j);
    }
  }

  lemma {:induction false} AdjacentReaches(s: seq<GeoRange>, i: nat, j: nat)
    requires AdjacentOk(s) && i < j < |s|
    ensures s[i].end < s[j].start && Proper(s[j])
    decreases j
  {
    if i < j - 1 {
      AdjacentReaches(s, i, j - 1);
    }
  }

  lemma SortedPasses(s: seq<GeoRange>)
    requires SortedBy(Below, s)
    ensures AdjacentOk(s) <==> Passes(s)
  {
    if AdjacentOk(s) {
      forall i, j | 0 <= i < j < |s|
        ensures PairPasses(s[i], s[j]) && PairPasses(s[j], s[i])
      {
        AdjacentReaches(s, i, j);
        assert !Below(s[j], s[i]);
      }
    }
    if Passes(s) {
      forall i | 1 <= i < |s|
        ensures Proper(s[i]) && s[i - 1].end < s[i].start
      {
        assert !Below(s[i], s[i - 1]);
        assert PairPasses(s[i - 1], s[i]);
      }
    }
  }

  /**
   * The check succeeds exactly when no two proper ranges overlap and no range is
   * improper, except that one improper range below all others goes unnoticed.
   */
  lemma CheckIsExact(ranges: seq<GeoRange>, sorted: seq<GeoRange>)
    requires SortedCopy(Below, ranges, sorted)
    ensures AdjacentOk(sorted) <==> Passes(ranges)
    ensures AllProper(ranges) ==> (AdjacentOk(sorted) <==> PairwiseDisjoint(ranges))
  {
    hide Below, Overlap, Proper;
    SortedPasses(sorted);
    if Passes(sorted) { PassesPerm(sorted, ranges); }
    if Passes(ranges) { PassesPerm(ranges, sorted); }
    if AllProper(ranges) { ProperPasses(ranges); }
  }

  lemma ProperPasses(s: seq<GeoRange>)
    requires AllProper(s)
    ensures Passes(s) <==> PairwiseDisjoint(s)
  {
    if PairwiseDisjoint(s) {
      forall i, j | 0 <= i < |s| && 0 <= j < |s| && i != j
        ensures PairPasses(s[i], s[j])
      {
        assert Proper(s[i]) && Proper(s[j]) && !Overlap(s[i], s[j]);
      }
    }
    if Passes(s) {
      forall i, j | 0 <= i < |s| && 0 <= j < |s| && i != j
        ensures !Overlap(s[i], s[j])
      {
        assert PairPasses(s[i], s[j]) && Proper(s[i]) && Proper(s[j]);
      }
    }
  }

  /** Refuses a list exactly when it does not pass; see CheckIsExact for proper ranges. */
  method CheckNonOverlapping(ranges: seq<GeoRange>) returns (ok: bool)
    ensures ok <==> Passes(ranges)
    ensures AllProper(ranges) ==> (ok <==> PairwiseDisjoint(ranges))
  {
    hide Passes, PairwiseDisjoint, AllProper, AdjacentOk;
    BelowIsWeakOrder();
    var s := SortSlice(ranges, Below);
    CheckIsExact(ranges, s);
    ok := CheckAdjacent(s);
  }

  /** The gap in the check: any single improper range passes it. */
  lemma OneImproperRangePasses(r: GeoRange)
    requires !Proper(r)
    ensures Passes([r]) && SortedCopy(Below, [r], [r]) && Greedy([r], None) == []
  {
    GreedyOne(r, None);
  }

  // ---- intervals do not depend on the order of equal keys ----

  function Interval(r: GeoRange): (U32, U32) {
    (r.start, r.end)
  }

  function Intervals(s: seq<GeoRange>): seq<(U32, U32)> {
    MapSeq(Interval, s)
  }

  lemma {:induction false} GreedyIntervals(s: seq<GeoRange>, t: seq<GeoRange>, last: Option<U32>)
    requires Intervals(s) == Intervals(t)
    ensures Intervals(Greedy(s, last)) == Intervals(Greedy(t, last))
  {
    assert |s| == |Intervals(s)| == |t|;
    if s != [] {
      assert Intervals(s)[0] == Intervals(t)[0];
      assert Intervals(s)[1..] == Intervals(s[1..]) && Intervals(t)[1..] == Intervals(t[1..]);
      if s[0].end < s[0].start || (last.Some? && s[0].start <= last.value) {
        GreedyIntervals(s[1..], t[1..], last);
      } else {
        GreedyIntervals(s[1..], t[1..], Some(s[0].end));
        MapAppend(Interval, [s[0]], Greedy(s[1..], Some(s[0].end)));
        MapAppend(Interval, [t[0]], Greedy(t[1..], Some(t[0].end)));
        assert MapSeq(Interval, [s[0]]) == MapSeq(Interval, [t[0]]);
      }
    }
  }

  predicate PairBelow(a: (U32, U32), b: (U32, U32)) {
    if a.0 == b.0 then a.1 < b.1 else a.0 < b.0
  }

  lemma SortedIntervals(s: seq<GeoRange>)
    requires SortedBy(Below, s)
    ensures SortedBy(PairBelow, Intervals(s))
  {
    forall i, j | 0 <= i < j < |s|
      ensures !PairBelow(Intervals(s)[j], Intervals(s)[i])
    {
      assert !Below(s[j], s[i]);
    }
  }

  /** Two sorted copies of one list have the same intervals in the same order. */
  lemma SortedCopiesAgree(ranges: seq<GeoRange>, a: seq<GeoRange>, b: seq<GeoRange>)
    requires SortedCopy(Below, ranges, a) && SortedCopy(Below, ranges, b)
    ensures Intervals(a) == Intervals(b)
  {
    hide Below;
    SortedIntervals(a);
    SortedIntervals(b);
    MapPerm(Interval, a, b);
    SortedUnique(PairBelow, Intervals(a), Intervals(b));
  }

  /** No two positions hold the same interval. */
  ghost predicate DistinctIntervals(s: seq<GeoRange>) {
    forall i, j :: 0 <= i < |s| && 0 <= j < |s| && i != j ==> Interval(s[i]) != Interval(s[j])
  }

  /** Without equal intervals there is only one sorted copy. */
  lemma SortedCopyUnique(s: seq<GeoRange>, t: seq<GeoRange>)
    requires SortedBy(Below, s) && SortedCopy(Below, s, t) && DistinctIntervals(s)
    ensures t == s
  {
    forall i, j | 0 <= i < |s| && 0 <= j < |s| && !Below(s[i], s[j]) && !Below(s[j], s[i])
      ensures s[i] == s[j]
    {
      assert Interval(s[i]) == Interval(s[j]);
    }
    SortedStays(Below, s, t);
  }

  // ---- when the kept ranges do not depend on the order of equal keys ----

  /** The position of the k-th kept range. */
  function KeptAt(s: seq<GeoRange>, last: Option<U32>, k: nat): nat
    requires k < |Greedy(s, last)|
  {
    if s[0].end < s[0].start || (last.Some? && s[0].start <= last.value) then 1 + KeptAt(s[1..], last, k)
    else if k == 0 then 0
    else 1 + KeptAt(s[1..], Some(s[0].end), k - 1)
  }

  lemma SameIntervals(s: seq<GeoRange>, t: seq<GeoRange>)
    requires Intervals(s) == Intervals(t) && s != []
    ensures |s| == |t| && s[0].start == t[0].start && s[0].end == t[0].end && Intervals(s[1..]) == Intervals(t[1..])
  {
    assert |s| == |Intervals(s)| == |t|;
    assert Intervals(s)[0] == Intervals(t)[0];
    assert Intervals(s)[1..] == Intervals(s[1..]) && Intervals(t)[1..] == Intervals(t[1..]);
  }

  /** Lists with the same intervals keep the same positions. */
  lemma {:induction false} SamePositions(s: seq<GeoRange>, t: seq<GeoRange>, last: Option<U32>, k: nat)
    requires Intervals(s) == Intervals(t) && k < |Greedy(s, last)|
    ensures k < |Greedy(t, last)| && KeptAt(s, last, k) < |t| && Greedy(t, last)[k] == t[KeptAt(s, last, k)]
    decreases |s|
  {
    SameIntervals(s, t);
    hide Intervals;
    if s[0].end < s[0].start || (last.Some? && s[0].start <= last.value) {
      SamePositions(s[1..], t[1..], last, k);
    } else if k > 0 {
      SamePositions(s[1..], t[1..], Some(s[0].end), k - 1);
    }
  }

  /** Every range of the list with the interval of a kept one is equal to it. */
  ghost predicate Unrivalled(s: seq<GeoRange>) {
    forall k, j :: 0 <= k < |Greedy(s, None)| && 0 <= j < |s| && Interval(s[j]) == Interval(Greedy(s, None)[k]) ==>
      s[j] == Greedy(s, None)[k]
  }

  /** Any other sorted copy of an unrivalled list keeps the same ranges. */
  lemma UnrivalledIsFixed(s: seq<GeoRange>, t: seq<GeoRange>)
    requires SortedBy(Below, s) && SortedCopy(Below, s, t) && Unrivalled(s)
    ensures Greedy(t, None) == Greedy(s, None)
  {
    hide Below, Greedy;
    var a, b := Greedy(s, None), Greedy(t, None);
    SortedCopiesAgree(s, s, t);
    GreedyIntervals(s, t, None);
    GreedyElements(t, None);
    assert |a| == |Intervals(a)| == |Intervals(b)| == |b|;
    forall k | 0 <= k < |a|
      ensures b[k] == a[k]
    {
      assert Intervals(b)[k] == Intervals(a)[k];
      assert b[k] in multiset(b);
      assert b[k] in multiset(s);
      var j :| 0 <= j < |s| && s[j] == b[k];
    }
  }

  lemma Exchange(s: seq<GeoRange>, i: nat, j: nat) returns (t: seq<GeoRange>)
    requires SortedBy(Below, s) && i < |s| && j < |s| && Interval(s[i]) == Interval(s[j])
    ensures SortedCopy(Below, s, t) && Intervals(t) == Intervals(s) && t[i] == s[j]
  {
    t := s[i := s[j]][j := s[i]];
    forall k | 0 <= k < |s|
      ensures Interval(t[k]) == Interval(s[k])
    {
    }
    forall k, l | 0 <= k < l < |t|
      ensures !Below(t[l], t[k])
    {
      assert !Below(s[l], s[k]);
      assert Interval(t[k]) == Interval(s[k]) && Interval(t[l]) == Interval(s[l]);
    }
  }

  /** The sorted copies of a list keep the same ranges, all of them, exactly when the list is unrivalled. */
  lemma KeptExactly(s: seq<GeoRange>)
    requires SortedBy(Below, s)
    ensures (forall t :: SortedCopy(Below, s, t) ==> Greedy(t, None) == Greedy(s, None)) <==> Unrivalled(s)
  {
    hide Greedy, Below;
    if Unrivalled(s) {
      forall t | SortedCopy(Below, s, t)
        ensures Greedy(t, None) == Greedy(s, None)
      {
        UnrivalledIsFixed(s, t);
      }
    } else {
      var k, j :| 0 <= k < |Greedy(s, None)| && 0 <= j < |s| &&
        Interval(s[j]) == Interval(Greedy(s, None)[k]) && s[j] != Greedy(s, None)[k];
      SamePositions(s, s, None, k);
      var i := KeptAt(s, None, k);
      var t := Exchange(s, i, j);
      SamePositions(s, t, None, k);
      assert Greedy(t, None)[k] == s[j];
    }
  }
}
