/** What normalizing reputation ranges keeps, when it separates them, and that it is stable. */
module ReputationLaws {
  import opened Common
  import opened Lists
  import opened ReputationNormalize

  ghost predicate Covers(s: seq<Range>, ip: nat) {
    exists i :: 0 <= i < |s| && s[i].start <= ip <= s[i].end
  }

  ghost predicate StartsSorted(s: seq<Range>) {
    (forall i :: 0 <= i < |s| ==> s[i].start <= s[i].end) &&
    forall i, j :: 0 <= i < j < |s| ==> s[i].start <= s[j].start
  }

  // ---- coverage ----

  lemma CoversCons(r: Range, s: seq<Range>, ip: nat)
    ensures Covers([r] + s, ip) <==> (r.start <= ip <= r.end) || Covers(s, ip)
  {
    var t := [r] + s;
    if Covers(s, ip) {
      var i :| 0 <= i < |s| && s[i].start <= ip <= s[i].end;
      assert t[i + 1] == s[i];
    }
    if r.start <= ip <= r.end {
      assert t[0] == r;
    }
    if Covers(t, ip) && !(r.start <= ip <= r.end) {
      var i :| 0 <= i < |t| && t[i].start <= ip <= t[i].end;
      assert s[i - 1] == t[i];
    }
  }

  /** Merging covers the same addresses, also where the 32-bit successor wraps to zero. */
  lemma {:induction false} MergeCovers(cur: Range, g: seq<Range>, ip: nat)
    requires StartsSorted([cur] + g)
    ensures Covers(Merge(cur, g), ip) <==> (cur.start <= ip <= cur.end) || Covers(g, ip)
    decreases |g|
  {
    if g == [] {
      assert Covers([cur], ip) <==> (cur.start <= ip <= cur.end) by {
        CoversCons(cur, [], ip);
        assert [cur] + [] == [cur];
      }
    } else {
      var all := [cur] + g;
      assert all[1] == g[0] && all[0] == cur;
      assert g == [g[0]] + g[1..];
      CoversCons(g[0], g[1..], ip);
      TailSorted(cur, g);
      if Touches(cur, g[0]) {
        MergeCovers(Absorb(cur, g[0]), g[1..], ip);
      } else {
        MergeCovers(g[0], g[1..], ip);
        CoversCons(cur, Merge(g[0], g[1..]), ip);
      }
    }
  }

  lemma TailSorted(cur: Range, g: seq<Range>)
    requires g != [] && StartsSorted([cur] + g)
    ensures StartsSorted([g[0]] + g[1..]) && StartsSorted([Absorb(cur, g[0])] + g[1..])
  {
    var all := [cur] + g;
    assert [g[0]] + g[1..] == g == all[1..];
    assert all[0] == cur && all[1] == g[0];
    AbsorbedSorted(cur, g, all);
  }

  lemma AbsorbedSorted(cur: Range, g: seq<Range>, all: seq<Range>)
    requires g != [] && all == [cur] + g && StartsSorted(all)
    ensures StartsSorted([Absorb(cur, g[0])] + g[1..])
  {
    var rest := [Absorb(cur, g[0])] + g[1..];
    assert all[0] == cur && all[1] == g[0];
    assert rest[0].start == all[0].start && rest[0].end >= all[0].end;
    forall i | 0 < i < |rest|
      ensures rest[i] == all[i + 1]
    {
    }
    hide Absorb;
  }

  lemma SortedStarts(g: seq<Range>)
    requires SortedBy(StartLess, g) && forall i :: 0 <= i < |g| ==> g[i].start <= g[i].end
    ensures StartsSorted(g)
  {
    forall i, j | 0 <= i < j < |g|
      ensures g[i].start <= g[j].start
    {
      assert !StartLess(g[j], g[i]);
    }
  }

  lemma CoversPerm(a: seq<Range>, b: seq<Range>, ip: nat)
    requires multiset(a) == multiset(b)
    ensures Covers(a, ip) <==> Covers(b, ip)
  {
    if Covers(a, ip) {
      var i :| 0 <= i < |a| && a[i].start <= ip <= a[i].end;
      SameElements(a, b, i);
    }
    if Covers(b, ip) {
      var i :| 0 <= i < |b| && b[i].start <= ip <= b[i].end;
      SameElements(b, a, i);
    }
  }

  /** For every list and category, normalizing keeps exactly the covered addresses. */
  lemma NormalizeCovers(ranges: seq<Range>, out: seq<Range>, k: Key, ip: nat)
    requires Normalized(ranges, out)
    ensures Covers(OfKey(out, k), ip) <==> Covers(Group(ranges, k), ip)
  {
    hide OfKey, Group, Merge;
    assert KeyMerged(ranges, k, out);
    var g :| MergedAs(ranges, k, g, out);
    CoversPerm(OfKey(out, k), MergeGroup(g), ip);
    CoversPerm(g, Group(ranges, k), ip);
    GroupElements(ranges, k, g);
    SortedStarts(g);
    if g != [] {
      assert g == [g[0]] + g[1..];
      MergeCovers(g[0], g[1..], ip);
      CoversCons(g[0], g[1..], ip);
    }
  }

  // ---- gaps ----

  /** Any two ranges have an address between them. */
  ghost predicate Gapped(s: seq<Range>) {
    forall i, j :: 0 <= i < j < |s| ==> s[i].end + 1 < s[j].start
  }

  /** Some range ends the address space and a later one starts above zero. */
  ghost predicate WrapsBefore(s: seq<Range>) {
    exists p, q :: WrapsAt(s, p, q)
  }

  ghost predicate AboveZero(s: seq<Range>) {
    exists q :: 0 <= q < |s| && s[q].start > 0
  }

  ghost predicate WrapsAt(s: seq<Range>, p: int, q: int) {
    0 <= p < q < |s| && s[p].end == MAX32 && s[q].start > 0
  }

  lemma WrapsFromTail(cur: Range, g: seq<Range>)
    requires WrapsBefore(g)
    ensures WrapsBefore([cur] + g)
  {
    var p, q :| WrapsAt(g, p, q);
    assert WrapsAt([cur] + g, p + 1, q + 1);
  }

  lemma WrapsFromHead(cur: Range, g: seq<Range>)
    requires cur.end == MAX32 && AboveZero(g)
    ensures WrapsBefore([cur] + g)
  {
    var q :| 0 <= q < |g| && g[q].start > 0;
    assert WrapsAt([cur] + g, 0, q + 1);
  }

  lemma WrapsSplit(cur: Range, g: seq<Range>)
    requires WrapsBefore([cur] + g)
    ensures WrapsBefore(g) || (cur.end == MAX32 && AboveZero(g))
  {
    var p, q :| WrapsAt([cur] + g, p, q);
    assert g[q - 1].start > 0;
    if p > 0 {
      assert WrapsAt(g, p - 1, q - 1);
    }
  }

  lemma WrapsCons(cur: Range, g: seq<Range>)
    ensures WrapsBefore([cur] + g) <==> WrapsBefore(g) || (cur.end == MAX32 && AboveZero(g))
  {
    hide WrapsBefore, AboveZero;
    if WrapsBefore(g) { WrapsFromTail(cur, g); }
    if cur.end == MAX32 && AboveZero(g) { WrapsFromHead(cur, g); }
    if WrapsBefore([cur] + g) { WrapsSplit(cur, g); }
  }

  lemma GappedTail(cur: Range, s: seq<Range>)
    requires s != [] && Gapped([cur] + s)
    ensures cur.end + 1 < s[0].start && Gapped(s)
  {
    var all := [cur] + s;
    assert all[0] == cur && all[1] == s[0];
    forall i, j | 0 <= i < j < |s|
      ensures s[i].end + 1 < s[j].start
    {
      assert all[i + 1] == s[i] && all[j + 1] == s[j];
    }
  }

  lemma GappedCons(cur: Range, s: seq<Range>)
    requires s != [] && StartsSorted(s)
    ensures Gapped([cur] + s) <==> cur.end + 1 < s[0].start && Gapped(s)
  {
    var all := [cur] + s;
    if Gapped(all) {
      GappedTail(cur, s);
    }
    if cur.end + 1 < s[0].start && Gapped(s) {
      forall i, j | 0 <= i < j < |all|
        ensures all[i].end + 1 < all[j].start
      {
        assert all[j] == s[j - 1];
        assert i > 0 ==> all[i] == s[i - 1];
      }
    }
  }

  lemma SortedCons(cur: Range, rest: seq<Range>)
    requires StartsSorted(rest) && rest != [] && cur.start <= cur.end && cur.start <= rest[0].start
    ensures StartsSorted([cur] + rest)
  {
    var all := [cur] + rest;
    forall i, j | 0 <= i < j < |all|
      ensures all[i].start <= all[j].start
    {
      assert j > 1 ==> rest[0].start <= rest[j - 1].start;
      if i > 0 {
        assert rest[i - 1].start <= rest[j - 1].start;
      }
    }
  }

  lemma {:induction false} MergeSortedStarts(cur: Range, g: seq<Range>)
    requires StartsSorted([cur] + g)
    ensures StartsSorted(Merge(cur, g))
    decreases |g|
  {
    if g == [] {
      assert [cur] + g == [cur];
    } else {
      TailSorted(cur, g);
      var all := [cur] + g;
      assert all[0] == cur && all[1] == g[0];
      if Touches(cur, g[0]) {
        MergeSortedStarts(Absorb(cur, g[0]), g[1..]);
      } else {
        MergeSortedStarts(g[0], g[1..]);
        SortedCons(cur, Merge(g[0], g[1..]));
      }
    }
  }

  /** Merging leaves gaps exactly when no range at the end of the space comes before one above zero. */
  lemma {:induction false} MergeGapped(cur: Range, g: seq<Range>)
    requires StartsSorted([cur] + g)
    ensures Gapped(Merge(cur, g)) <==> !WrapsBefore([cur] + g)
    decreases |g|
  {
    hide StartsSorted, WrapsBefore, Gapped, AboveZero;
    if g == [] {
      SingleGapped(cur);
      assert [cur] + g == [cur];
    } else {
      FirstTwo(cur, g);
      TailSorted(cur, g);
      assert g == [g[0]] + g[1..];
      WrapsCons(cur, g);
      WrapsCons(g[0], g[1..]);
      AnyAboveZero(g);
      if Touches(cur, g[0]) {
        MergeGapped(Absorb(cur, g[0]), g[1..]);
        WrapsCons(Absorb(cur, g[0]), g[1..]);
      } else {
        var rest := Merge(g[0], g[1..]);
        MergeGapped(g[0], g[1..]);
        MergeSortedStarts(g[0], g[1..]);
        GappedCons(cur, rest);
      }
    }
  }

  lemma SingleGapped(cur: Range)
    ensures Gapped([cur]) && !WrapsBefore([cur])
  {
  }

  lemma FirstTwo(cur: Range, g: seq<Range>)
    requires g != [] && StartsSorted([cur] + g)
    ensures cur.start <= g[0].start && cur.start <= cur.end && g[0].start <= g[0].end
  {
    var all := [cur] + g;
    assert all[0] == cur && all[1] == g[0];
  }

  lemma AnyAboveZero(g: seq<Range>)
    requires g != []
    ensures AboveZero(g) <==> g[0].start > 0 || AboveZero(g[1..])
  {
    if AboveZero(g) {
      var q :| 0 <= q < |g| && g[q].start > 0;
      assert q > 0 ==> g[1..][q - 1].start > 0;
    }
    if AboveZero(g[1..]) {
      var q :| 0 <= q < |g[1..]| && g[1..][q].start > 0;
      assert g[q + 1].start > 0;
    }
  }

  /**
   * The condition on the input: one range ends at 255.255.255.255, and another one
   * starts later, or starts at the same address above zero and ends there too.
   */
  ghost predicate WrapHazard(s: seq<Range>) {
    exists i, j :: 0 <= i < |s| && 0 <= j < |s| && i != j && HazardPair(s[i], s[j])
  }

  predicate HazardPair(a: Range, b: Range) {
    a.end == MAX32 && b.start > 0 && (b.start > a.start || (b.start == a.start && b.end == MAX32))
  }

  /** On a sorted list the hazard is a wrapping range before one above zero. */
  lemma HazardOfSorted(g: seq<Range>)
    requires SortedBy(StartLess, g) && forall i :: 0 <= i < |g| ==> g[i].start <= g[i].end
    ensures WrapHazard(g) <==> WrapsBefore(g)
  {
    if WrapHazard(g) {
      var i, j :| 0 <= i < |g| && 0 <= j < |g| && i != j && HazardPair(g[i], g[j]);
      if i < j {
        assert WrapsAt(g, i, j);
      } else {
        assert !StartLess(g[i], g[j]);
        assert WrapsAt(g, j, i);
      }
    }
    if WrapsBefore(g) {
      var p, q :| WrapsAt(g, p, q);
      assert !StartLess(g[q], g[p]);
      assert HazardPair(g[p], g[q]);
    }
  }

  lemma HazardPerm(a: seq<Range>, b: seq<Range>)
    requires multiset(a) == multiset(b) && WrapHazard(a)
    ensures WrapHazard(b)
  {
    var i, j :| 0 <= i < |a| && 0 <= j < |a| && i != j && HazardPair(a[i], a[j]);
    var k, l := PairOfPerm(a, b, i, j);
    assert HazardPair(b[k], b[l]);
  }

  /** A gap between any two ranges of a list, whatever their order. */
  ghost predicate Separated(s: seq<Range>) {
    forall i, j :: 0 <= i < |s| && 0 <= j < |s| && i != j ==> s[i].end + 1 < s[j].start || s[j].end + 1 < s[i].start
  }

  lemma SeparatedPerm(a: seq<Range>, b: seq<Range>)
    requires multiset(a) == multiset(b) && Separated(a)
    ensures Separated(b)
  {
    forall i, j | 0 <= i < |b| && 0 <= j < |b| && i != j
      ensures b[i].end + 1 < b[j].start || b[j].end + 1 < b[i].start
    {
      var k, l := PairOfPerm(b, a, i, j);
    }
  }

  lemma GappedIsSeparated(s: seq<Range>)
    requires StartsSorted(s)
    ensures Gapped(s) <==> Separated(s)
  {
    if Separated(s) {
      forall i, j | 0 <= i < j < |s|
        ensures s[i].end + 1 < s[j].start
      {
        assert s[i].start <= s[j].start <= s[j].end;
      }
    }
  }

  /**
   * The ranges of one key come out with a gap between any two of them exactly when
   * the input has no wrap hazard for that key.
   */
  lemma NormalizeSeparates(ranges: seq<Range>, out: seq<Range>, k: Key)
    requires Normalized(ranges, out)
    ensures Separated(OfKey(out, k)) <==> !WrapHazard(Group(ranges, k))
  {
    hide OfKey, Group, Merge, Separated, WrapHazard, WrapsBefore, StartsSorted, Gapped;
    assert KeyMerged(ranges, k, out);
    var g :| MergedAs(ranges, k, g, out);
    GroupElements(ranges, k, g);
    SortedStarts(g);
    HazardOfSorted(g);
    if WrapHazard(g) { HazardPerm(g, Group(ranges, k)); }
    if WrapHazard(Group(ranges, k)) { HazardPerm(Group(ranges, k), g); }
    if g == [] {
      EmptyGapped();
      SeparatedBoth(OfKey(out, k), []);
    } else {
      assert g == [g[0]] + g[1..];
      MergeGapped(g[0], g[1..]);
      MergeSortedStarts(g[0], g[1..]);
      GappedIsSeparated(MergeGroup(g));
      SeparatedBoth(OfKey(out, k), MergeGroup(g));
    }
  }

  const WRAPPING := Range("l", "c", 1, MAX32, "", 0)
  const CONTAINED := Range("l", "c", 2, 3, "", 0)

  lemma HazardRangesAreClean()
    ensures Clean(WRAPPING) == WRAPPING && Clean(CONTAINED) == CONTAINED
  {
    hide Clean, Text.Trim;
    CleanIsClean(WRAPPING);
    CleanIsClean(CONTAINED);
  }

  lemma GroupOfTwo(a: Range, b: Range, k: Key)
    requires Clean(a) == a && Clean(b) == b && InGroup(k)(a) && InGroup(k)(b)
    ensures Group([a, b], k) == [a, b]
  {
    hide Clean;
    var ranges := [a, b];
    assert MapSeq(Clean, ranges) == ranges;
    assert ranges[1..] == [b] && [b][1..] == [];
    assert Keep(InGroup(k), [b]) == [b];
  }

  /** The smallest input with a hazard: a range up to the last address, and one inside it that stays beside it. */
  lemma HazardHappens(out: seq<Range>)
    requires Normalized([WRAPPING, CONTAINED], out)
    ensures WrapHazard(Group([WRAPPING, CONTAINED], Key("l", "c"))) && !Separated(OfKey(out, Key("l", "c")))
  {
    hide Group, Separated, OfKey, Normalized, Clean;
    var ranges, k := [WRAPPING, CONTAINED], Key("l", "c");
    HazardRangesAreClean();
    GroupOfTwo(WRAPPING, CONTAINED, k);
    assert HazardPair(ranges[0], ranges[1]);
    NormalizeSeparates(ranges, out, k);
  }

  lemma EmptyGapped()
    ensures Separated([]) && !WrapsBefore([])
  {
  }

  lemma SeparatedBoth(a: seq<Range>, b: seq<Range>)
    requires multiset(a) == multiset(b)
    ensures Separated(a) <==> Separated(b)
  {
    hide Separated;
    if Separated(a) { SeparatedPerm(a, b); }
    if Separated(b) { SeparatedPerm(b, a); }
  }

  // ---- the intervals do not depend on any order ----

  /** A range without the data that does not take part in the order. */
  function Bare(r: Range): Range {
    r.(source := "", updated := 0)
  }

  function Shape(s: seq<Range>): seq<Range> {
    MapSeq(Bare, s)
  }

  lemma {:induction false} MergeShape(cur: Range, g: seq<Range>)
    ensures Shape(Merge(cur, g)) == Merge(Bare(cur), Shape(g))
    decreases |g|
  {
    if g == [] {
      assert Shape([cur]) == [Bare(cur)];
    } else {
      ShapeHead(g);
      TouchesBare(cur, g[0]);
      if Touches(cur, g[0]) {
        MergeShape(Absorb(cur, g[0]), g[1..]);
      } else {
        MergeShape(g[0], g[1..]);
        ShapeCons(cur, Merge(g[0], g[1..]));
      }
      hide Shape, Bare, Absorb, Touches;
    }
  }

  lemma ShapeHead(g: seq<Range>)
    requires g != []
    ensures Shape(g) != [] && Shape(g)[0] == Bare(g[0]) && Shape(g)[1..] == Shape(g[1..])
  {
  }

  lemma ShapeCons(r: Range, s: seq<Range>)
    ensures Shape([r] + s) == [Bare(r)] + Shape(s)
  {
  }

  lemma TouchesBare(a: Range, b: Range)
    ensures Touches(Bare(a), Bare(b)) == Touches(a, b) && Bare(Absorb(a, b)) == Absorb(Bare(a), Bare(b))
  {
  }

  lemma MergeGroupShape(g: seq<Range>)
    ensures Shape(MergeGroup(g)) == MergeGroup(Shape(g))
  {
    if g != [] {
      MergeShape(g[0], g[1..]);
      assert Shape(g)[1..] == Shape(g[1..]);
    }
  }

  lemma SortedShape(g: seq<Range>)
    requires SortedBy(StartLess, g)
    ensures SortedBy(StartLess, Shape(g))
  {
    forall i, j | 0 <= i < j < |g|
      ensures !StartLess(Shape(g)[j], Shape(g)[i])
    {
      assert !StartLess(g[j], g[i]);
    }
  }

  /** Sorted copies of two groups with the same ranges have the same intervals. */
  lemma SameSortedShape(g: seq<Range>, h: seq<Range>, k: Key)
    requires SortedBy(StartLess, g) && SortedBy(StartLess, h) && multiset(Shape(g)) == multiset(Shape(h))
    requires forall i :: 0 <= i < |g| ==> KeyOf(g[i]) == k
    ensures Shape(g) == Shape(h)
  {
    SortedShape(g);
    SortedShape(h);
    forall i, j | 0 <= i < |g| && 0 <= j < |g| && !StartLess(Shape(g)[i], Shape(g)[j]) && !StartLess(Shape(g)[j], Shape(g)[i])
      ensures Shape(g)[i] == Shape(g)[j]
    {
      assert KeyOf(g[i]) == KeyOf(g[j]) == k;
    }
    SortedUnique(StartLess, Shape(g), Shape(h));
  }

  lemma KeyShapes(r1: seq<Range>, r2: seq<Range>, out1: seq<Range>, out2: seq<Range>, k: Key)
    requires multiset(r1) == multiset(r2) && Normalized(r1, out1) && Normalized(r2, out2)
    ensures multiset(Shape(OfKey(out1, k))) == multiset(Shape(OfKey(out2, k)))
  {
    hide OfKey, Group, MergeGroup, Shape;
    assert KeyMerged(r1, k, out1) && KeyMerged(r2, k, out2);
    var g :| MergedAs(r1, k, g, out1);
    var h :| MergedAs(r2, k, h, out2);
    GroupPerm(r1, r2, k);
    GroupElements(r1, k, g);
    ShapePerm(g, h);
    SameSortedShape(g, h, k);
    MergeGroupShape(g);
    MergeGroupShape(h);
    ShapePerm(OfKey(out1, k), MergeGroup(g));
    ShapePerm(OfKey(out2, k), MergeGroup(h));
  }

  lemma ShapePerm(a: seq<Range>, b: seq<Range>)
    requires multiset(a) == multiset(b)
    ensures multiset(Shape(a)) == multiset(Shape(b))
  {
    MapPerm(Bare, a, b);
  }

  lemma GroupPerm(r1: seq<Range>, r2: seq<Range>, k: Key)
    requires multiset(r1) == multiset(r2)
    ensures multiset(Group(r1, k)) == multiset(Group(r2, k))
  {
    MapPerm(Clean, r1, r2);
    KeepPerm(InGroup(k), MapSeq(Clean, r1), MapSeq(Clean, r2));
  }

  lemma ShapeOfKey(s: seq<Range>, k: Key)
    ensures Shape(OfKey(s, k)) == OfKey(Shape(s), k)
  {
    KeepMap(Bare, HasKey(k), HasKey(k), s);
  }

  /** Lists that agree key by key agree as a whole. */
  lemma SameByKeys(a: seq<Range>, b: seq<Range>)
    requires forall k: Key :: multiset(OfKey(a, k)) == multiset(OfKey(b, k))
    ensures multiset(a) == multiset(b)
  {
    forall x: Range
      ensures multiset(a)[x] == multiset(b)[x]
    {
      var k := KeyOf(x);
      assert multiset(OfKey(a, k)) == multiset(OfKey(b, k));
      KeepCount(HasKey(k), a, x);
      KeepCount(HasKey(k), b, x);
    }
  }

  lemma OutLessSeparates(a: Range, b: Range)
    requires !OutLess(a, b) && !OutLess(b, a)
    ensures Bare(a) == Bare(b)
  {
    TextLessAsym(a.list, b.list);
    TextLessAsym(a.cat, b.cat);
  }

  lemma OutLessIgnoresData(a: Range, b: Range)
    ensures OutLess(Bare(a), Bare(b)) <==> OutLess(a, b)
  {
  }

  /** Sorted outputs with the same intervals, as collections, are the same as lists. */
  lemma SortedOutputs(a: seq<Range>, b: seq<Range>)
    requires SortedBy(OutLess, a) && SortedBy(OutLess, b) && multiset(Shape(a)) == multiset(Shape(b))
    ensures Shape(a) == Shape(b)
  {
    hide OutLess;
    forall s | s == a || s == b
      ensures SortedBy(OutLess, Shape(s))
    {
      forall i, j | 0 <= i < j < |s|
        ensures !OutLess(Shape(s)[j], Shape(s)[i])
      {
        OutLessIgnoresData(s[j], s[i]);
      }
    }
    forall i, j | 0 <= i < |a| && 0 <= j < |a| && !OutLess(Shape(a)[i], Shape(a)[j]) && !OutLess(Shape(a)[j], Shape(a)[i])
      ensures Shape(a)[i] == Shape(a)[j]
    {
      OutLessSeparates(Shape(a)[i], Shape(a)[j]);
    }
    SortedUnique(OutLess, Shape(a), Shape(b));
  }

  /**
   * The intervals that come out, with their names and in their order, depend only
   * on the collection of ranges put in: not on their order, nor on the order in
   * which groups are visited or equal elements are sorted.
   */
  lemma NormalizeIsDeterministic(r1: seq<Range>, r2: seq<Range>, out1: seq<Range>, out2: seq<Range>)
    requires multiset(r1) == multiset(r2) && Normalized(r1, out1) && Normalized(r2, out2)
    ensures Shape(out1) == Shape(out2)
  {
    hide OfKey, Shape, KeyMerged;
    forall k: Key
      ensures multiset(OfKey(Shape(out1), k)) == multiset(OfKey(Shape(out2), k))
    {
      KeyShapes(r1, r2, out1, out2, k);
      ShapeOfKey(out1, k);
      ShapeOfKey(out2, k);
    }
    SameByKeys(Shape(out1), Shape(out2));
    SortedOutputs(out1, out2);
  }

  // ---- a second pass ----

  /** Neighbours do not touch and are in sorted order: merging has nothing left to do. */
  ghost predicate Settled(s: seq<Range>) {
    (forall i :: 0 <= i < |s| - 1 ==> !Touches(s[i], s[i + 1])) && SortedBy(StartLess, s)
  }

  lemma {:induction false} MergeOfSettled(cur: Range, g: seq<Range>)
    requires forall i :: 0 <= i < |g| ==> !Touches(([cur] + g)[i], ([cur] + g)[i + 1])
    ensures Merge(cur, g) == [cur] + g
    decreases |g|
  {
    if g == [] {
      assert [cur] + g == [cur];
    } else {
      var all := [cur] + g;
      assert !Touches(all[0], all[1]);
      assert [g[0]] + g[1..] == g;
      assert forall i :: 0 <= i < |g| ==> all[i + 1] == g[i];
      MergeOfSettled(g[0], g[1..]);
    }
  }

  lemma SettledShape(s: seq<Range>, t: seq<Range>)
    requires Settled(s) && Shape(s) == Shape(t)
    ensures MergeGroup(t) == t
  {
    assert |s| == |Shape(s)| == |t|;
    if t != [] {
      forall i | 0 <= i < |t| - 1
        ensures !Touches(t[i], t[i + 1])
      {
        assert Shape(s)[i] == Shape(t)[i] && Shape(s)[i + 1] == Shape(t)[i + 1];
        assert !Touches(s[i], s[i + 1]);
      }
      assert [t[0]] + t[1..] == t;
      MergeOfSettled(t[0], t[1..]);
    }
  }

  /**
   * The result of a merge is settled. While cur has not reached the end of the
   * space its start decides the order; once it has, equal starts mean equal ranges.
   */
  lemma {:induction false} MergeSettles(cur: Range, g: seq<Range>)
    requires StartsSorted([cur] + g) && SortedBy(StartLess, g)
    requires cur.end == MAX32 && g != [] && g[0].start == cur.start ==> g[0].end == MAX32
    ensures Settled(Merge(cur, g))
    decreases |g|
  {
    if g != [] {
      TailSorted(cur, g);
      FirstTwo(cur, g);
      SortedTail(StartLess, g);
      assert |g| > 1 ==> !StartLess(g[1], g[0]);
      if Touches(cur, g[0]) {
        MergeSettles(Absorb(cur, g[0]), g[1..]);
      } else {
        var rest := Merge(g[0], g[1..]);
        MergeSettles(g[0], g[1..]);
        MergeFirstEnd(g[0], g[1..]);
        MergeSortedStarts(g[0], g[1..]);
        SettledCons(cur, rest);
      }
    }
  }

  /** The first merged range ends no earlier than it did. */
  lemma {:induction false} MergeFirstEnd(cur: Range, g: seq<Range>)
    ensures Merge(cur, g)[0].end >= cur.end
    decreases |g|
  {
    if g != [] && Touches(cur, g[0]) {
      MergeFirstEnd(Absorb(cur, g[0]), g[1..]);
    }
  }

  lemma SettledCons(cur: Range, rest: seq<Range>)
    requires rest != [] && Settled(rest) && StartsSorted(rest)
    requires cur.start <= rest[0].start && !Touches(cur, rest[0])
    requires cur.start <= cur.end
    requires cur.end == MAX32 && rest[0].start == cur.start ==> rest[0].end == MAX32
    ensures Settled([cur] + rest)
  {
    var all := [cur] + rest;
    assert all[0] == cur;
    assert forall i :: 0 <= i < |rest| ==> all[i + 1] == rest[i];
    forall i, j | 0 <= i < j < |all|
      ensures !StartLess(all[j], all[i])
    {
      assert all[j] == rest[j - 1];
      if i > 0 {
        assert !StartLess(rest[j - 1], rest[i - 1]);
      } else {
        assert j > 1 ==> !StartLess(rest[j - 1], rest[0]);
      }
    }
    forall i | 0 <= i < |all| - 1
      ensures !Touches(all[i], all[i + 1])
    {
      if i > 0 {
        assert !Touches(rest[i - 1], rest[i]);
      }
    }
  }

  lemma MergeGroupSettles(g: seq<Range>)
    requires SortedBy(StartLess, g) && forall i :: 0 <= i < |g| ==> g[i].start <= g[i].end
    ensures Settled(MergeGroup(g)) && StartsSorted(MergeGroup(g))
  {
    if g != [] {
      SortedStarts(g);
      assert g == [g[0]] + g[1..];
      SortedTail(StartLess, g);
      assert |g| > 1 ==> !StartLess(g[1], g[0]);
      MergeSettles(g[0], g[1..]);
      MergeSortedStarts(g[0], g[1..]);
    }
  }

  /** Ranges as normalizing leaves them: clean, and settled per key. */
  ghost predicate Tidy(out: seq<Range>) {
    SortedBy(OutLess, out) &&
    (forall i :: 0 <= i < |out| ==> Usable(out[i]) && IsClean(out[i])) &&
    forall k: Key :: TidyKey(out, k)
  }

  ghost predicate TidyKey(out: seq<Range>, k: Key) {
    exists m :: SettledAs(out, k, m)
  }

  ghost predicate SettledAs(out: seq<Range>, k: Key, m: seq<Range>) {
    Settled(m) && multiset(OfKey(out, k)) == multiset(m)
  }

  lemma {:induction false} MergeUsable(cur: Range, g: seq<Range>)
    requires Usable(cur) && IsClean(cur)
    requires forall i :: 0 <= i < |g| ==> Usable(g[i]) && IsClean(g[i])
    ensures forall i :: 0 <= i < |Merge(cur, g)| ==> Usable(Merge(cur, g)[i]) && IsClean(Merge(cur, g)[i])
    decreases |g|
  {
    hide Clean, IsClean;
    if g != [] {
      if Touches(cur, g[0]) {
        CleanAbsorb(cur, g[0]);
        MergeUsable(Absorb(cur, g[0]), g[1..]);
      } else {
        MergeUsable(g[0], g[1..]);
      }
    }
  }

  lemma CleanAbsorb(cur: Range, n: Range)
    requires IsClean(cur)
    ensures IsClean(Absorb(cur, n))
  {
  }

  lemma GroupIsClean(ranges: seq<Range>, k: Key, i: nat)
    requires i < |Group(ranges, k)|
    ensures Usable(Group(ranges, k)[i]) && IsClean(Group(ranges, k)[i])
  {
    hide Clean, IsClean;
    var r := Group(ranges, k)[i];
    assert r in MapSeq(Clean, ranges);
    var j :| 0 <= j < |ranges| && MapSeq(Clean, ranges)[j] == r;
    CleanIsClean(ranges[j]);
  }

  lemma MergedIsUsable(ranges: seq<Range>, k: Key, g: seq<Range>)
    requires multiset(g) == multiset(Group(ranges, k))
    ensures forall i :: 0 <= i < |MergeGroup(g)| ==> Usable(MergeGroup(g)[i]) && IsClean(MergeGroup(g)[i])
  {
    hide Clean, IsClean, Group;
    forall i | 0 <= i < |g|
      ensures Usable(g[i]) && IsClean(g[i])
    {
      SameElements(g, Group(ranges, k), i);
      var j :| 0 <= j < |Group(ranges, k)| && Group(ranges, k)[j] == g[i];
      GroupIsClean(ranges, k, j);
    }
    if g != [] {
      MergeUsable(g[0], g[1..]);
    }
  }

  lemma {:induction false} InOfKey(s: seq<Range>, i: nat)
    requires i < |s|
    ensures s[i] in OfKey(s, KeyOf(s[i]))
  {
    if i > 0 {
      InOfKey(s[1..], i - 1);
    }
  }

  /** Whatever normalizing returns is tidy. */
  lemma NormalizedIsTidy(ranges: seq<Range>, out: seq<Range>)
    requires Normalized(ranges, out)
    ensures Tidy(out)
  {
    hide Group, OfKey, MergeGroup, Clean, IsClean, Usable, Settled;
    forall i | 0 <= i < |out|
      ensures Usable(out[i]) && IsClean(out[i])
    {
      var k := KeyOf(out[i]);
      assert KeyMerged(ranges, k, out);
      var g :| MergedAs(ranges, k, g, out);
      InOfKey(out, i);
      var j :| 0 <= j < |OfKey(out, k)| && OfKey(out, k)[j] == out[i];
      SameElements(OfKey(out, k), MergeGroup(g), j);
      MergedIsUsable(ranges, k, g);
    }
    forall k: Key
      ensures TidyKey(out, k)
    {
      assert KeyMerged(ranges, k, out);
      var g :| MergedAs(ranges, k, g, out);
      GroupElements(ranges, k, g);
      UsableStarts(g);
      MergeGroupSettles(g);
      assert SettledAs(out, k, MergeGroup(g));
    }
  }

  lemma UsableStarts(g: seq<Range>)
    requires forall i :: 0 <= i < |g| ==> Usable(g[i])
    ensures forall i :: 0 <= i < |g| ==> g[i].start <= g[i].end
  {
  }

  /** The group of a tidy list is what the list holds of that key. */
  lemma GroupOfTidy(out: seq<Range>, k: Key)
    requires forall i :: 0 <= i < |out| ==> Usable(out[i]) && IsClean(out[i])
    ensures Group(out, k) == OfKey(out, k)
  {
    hide Clean, IsClean;
    forall i | 0 <= i < |out|
      ensures Clean(out[i]) == out[i]
    {
      CleanIsClean(out[i]);
    }
    assert MapSeq(Clean, out) == out;
    KeepSame(InGroup(k), HasKey(k), out);
  }

  lemma {:induction false} KeepSame<A>(p: A -> bool, q: A -> bool, s: seq<A>)
    requires forall i :: 0 <= i < |s| ==> p(s[i]) == q(s[i])
    ensures Keep(p, s) == Keep(q, s)
  {
    if s != [] {
      KeepSame(p, q, s[1..]);
    }
  }

  /** One key of a tidy list goes through another pass unchanged. */
  lemma TidyKeyStays(ranges: seq<Range>, before: seq<Range>, out: seq<Range>, k: Key)
    requires TidyKey(before, k) && Normalized(ranges, out)
    requires Group(ranges, k) == OfKey(before, k)
    ensures multiset(OfKey(out, k)) == multiset(OfKey(before, k))
  {
    hide Group, OfKey, MergeGroup, Shape;
    var m :| SettledAs(before, k, m);
    assert KeyMerged(ranges, k, out);
    var g :| MergedAs(ranges, k, g, out);
    GroupElements(ranges, k, g);
    ShapePerm(g, m);
    SameSortedShape(g, m, k);
    SettledShape(m, g);
  }

  /**
   * A second pass changes nothing: the same ranges come out, with their data, and
   * the same list when those that agree in interval and names are equal; that is so
   * when no group of the input has a wrap hazard.
   */
  lemma NormalizeTwice(ranges: seq<Range>, out: seq<Range>, again: seq<Range>)
    requires Normalized(ranges, out) && Normalized(out, again)
    ensures multiset(again) == multiset(out) && Shape(again) == Shape(out)
    ensures Separates(OutLess, out) ==> again == out
    ensures (forall k: Key :: !WrapHazard(Group(ranges, k))) ==> again == out
  {
    hide Group, OfKey, Shape, KeyMerged, TidyKey, WrapHazard, Separated, Clean, IsClean, Usable, OutLess;
    NormalizedIsTidy(ranges, out);
    forall k: Key
      ensures multiset(OfKey(again, k)) == multiset(OfKey(out, k))
    {
      GroupOfTidy(out, k);
      TidyKeyStays(out, out, again, k);
    }
    SameByKeys(again, out);
    ShapePerm(again, out);
    SortedOutputs(again, out);
    if forall k: Key :: !WrapHazard(Group(ranges, k)) {
      forall k: Key
        ensures Separated(OfKey(out, k))
      {
        NormalizeSeparates(ranges, out, k);
      }
      DistinctOutputs(out);
    }
    if Separates(OutLess, out) {
      SortedStays(OutLess, out, again);
    }
  }

  /** Ranges of one key with gaps between them are told apart by the output order. */
  lemma DistinctOutputs(out: seq<Range>)
    requires forall k: Key :: Separated(OfKey(out, k))
    requires forall i :: 0 <= i < |out| ==> Usable(out[i])
    ensures Separates(OutLess, out)
  {
    hide OutLess, OfKey;
    forall i, j | 0 <= i < |out| && 0 <= j < |out| && !OutLess(out[i], out[j]) && !OutLess(out[j], out[i])
      ensures out[i] == out[j]
    {
      OutLessSeparates(out[i], out[j]);
      var k := KeyOf(out[i]);
      assert KeyOf(out[j]) == k;
      if i != j {
        var a, b := TwoOfKey(out, k, if i < j then i else j, if i < j then j else i);
        assert false;
      }
    }
  }

  lemma {:induction false} TwoOfKey(s: seq<Range>, k: Key, i: nat, j: nat) returns (a: nat, b: nat)
    requires i < j < |s| && KeyOf(s[i]) == k && KeyOf(s[j]) == k
    ensures var t := OfKey(s, k); a < b < |t| && t[a] == s[i] && t[b] == s[j]
  {
    OfKeyHead(s, k);
    var rest := s[1..];
    assert rest[j - 1] == s[j];
    if i == 0 {
      var c := OneOfKey(rest, k, j - 1);
      a, b := 0, c + 1;
    } else {
      assert rest[i - 1] == s[i];
      hide OfKey, KeyOf;
      a, b := TwoOfKey(rest, k, i - 1, j - 1);
      if KeyOf(s[0]) == k {
        a, b := a + 1, b + 1;
      }
    }
  }

  lemma OneOfKey(s: seq<Range>, k: Key, j: nat) returns (c: nat)
    requires j < |s| && KeyOf(s[j]) == k
    ensures c < |OfKey(s, k)| && OfKey(s, k)[c] == s[j]
  {
    InOfKey(s, j);
    c :| 0 <= c < |OfKey(s, k)| && OfKey(s, k)[c] == s[j];
  }

  lemma OfKeyHead(s: seq<Range>, k: Key)
    requires s != []
    ensures OfKey(s, k) == (if KeyOf(s[0]) == k then [s[0]] else []) + OfKey(s[1..], k)
  {
  }
}
