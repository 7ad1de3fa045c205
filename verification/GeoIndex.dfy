/** The streaming builder, the snapshot builder, the CSV import and the index over snapshots. */
module GeoIndex {
  import opened Common
  import opened Lists
  import opened GeoModel
  import opened GeoRanges
  import opened GeoBuilder
  import Cidr

  // ---- building ----

  /** The range decides whether AddRange keeps it, given the end of the last kept one. */
  predicate Accepts(last: Option<U32>, g: GeoRange) {
    Proper(g) && (last.Some? ==> last.value < g.start)
  }

  lemma GreedyStep(offered: seq<GeoRange>, g: GeoRange)
    ensures Greedy(offered + [g], None) ==
      if Accepts(LastEnd(Greedy(offered, None), None), g) then Greedy(offered, None) + [g] else Greedy(offered, None)
  {
    GreedyAppend(offered, g, None);
    GreedyOne(g, LastEnd(Greedy(offered, None), None));
  }

  lemma NextEnd(offered: seq<GeoRange>, g: GeoRange)
    ensures LastEnd(Greedy(offered, None) + [g], None) == Some(g.end)
  {
  }

  /** Builds a snapshot range by range, skipping what overlaps the last kept range. */
  class CompactBuilder {
    const countries: DictionaryBuilder
    const regions: DictionaryBuilder
    const cities: DictionaryBuilder
    var rows: seq<RangeRow>
    var prev: Option<RangeRow>
    var skipped: nat
    ghost var offered: seq<GeoRange>

    ghost predicate Valid()
      reads this, countries, regions, cities
    {
      var kept := Greedy(offered, None);
      countries != regions && regions != cities && countries != cities &&
      State() == AddRows(kept) &&
      |kept| + skipped == |offered| &&
      PrevEnd() == LastEnd(kept, None)
    }

    ghost function State(): Built
      reads this, countries, regions, cities
    {
      Built(rows, countries.Value(), regions.Value(), cities.Value())
    }

    ghost function PrevEnd(): Option<U32>
      reads this
    {
      match prev case None => None case Some(row) => Some(row.end)
    }

    constructor ()
      ensures Valid() && offered == [] && fresh(countries) && fresh(regions) && fresh(cities)
    {
      countries := new DictionaryBuilder();
      regions := new DictionaryBuilder();
      cities := new DictionaryBuilder();
      rows, prev, skipped, offered := [], None, 0, [];
    }

    method AddRange(g: GeoRange) returns (added: bool)
      requires Valid()
      modifies this, countries, regions, cities
      ensures Valid() && offered == old(offered) + [g]
      ensures added <==> Accepts(LastEnd(Greedy(old(offered), None), None), g)
    {
      hide Greedy, AddRows, LastEnd;
      NextEnd(offered, g);
      GreedyStep(offered, g);
      AddRowsAppend(Greedy(offered, None), g);
      offered := offered + [g];
      if g.end < g.start {
        skipped := skipped + 1;
        return false;
      }
      if prev.Some? && g.start <= prev.value.end {
        skipped := skipped + 1;
        return false;
      }
      var country := countries.ID(g.country);
      var region := regions.ID(g.region);
      var city := cities.ID(g.city);
      var row := RangeRow(g.start, g.end, country, region, city, g.lat, g.lon);
      rows := rows + [row];
      prev := Some(row);
      added := true;
    }

    method Build() returns (snap: Snapshot, dropped: nat)
      requires Valid()
      ensures snap == SnapshotOf(Greedy(offered, None))
      ensures dropped == |offered| - |Greedy(offered, None)|
    {
      snap, dropped := Snapshot(rows, countries.values, regions.values, cities.values), skipped;
    }
  }

  /** Builds the snapshot of a list, normalizing it first unless the caller says it is normalized. */
  method BuildSnapshot(ranges: seq<GeoRange>, alreadyNormalized: bool)
    returns (snap: Snapshot, skipped: nat, ghost sorted: seq<GeoRange>)
    ensures alreadyNormalized ==> snap == SnapshotOf(ranges) && skipped == 0
    ensures !alreadyNormalized ==> SortedCopy(Below, ranges, sorted) && snap == SnapshotOf(Greedy(sorted, None))
    ensures !alreadyNormalized ==> skipped + |Greedy(sorted, None)| == |ranges|
  {
    sorted := [];
    if ranges == [] {
      return EMPTY_SNAPSHOT, 0, [];
    }
    var clean := ranges;
    skipped := 0;
    if !alreadyNormalized {
      clean, skipped, sorted := NormalizeRanges(ranges);
    }
    if clean == [] {
      return EMPTY_SNAPSHOT, skipped, sorted;
    }
    var rows := BuildRows(clean);
    snap := rows;
  }

  /** The loop that turns clean ranges into rows and dictionaries. */
  method BuildRows(clean: seq<GeoRange>) returns (snap: Snapshot)
    ensures snap == SnapshotOf(clean)
  {
    var countries := new DictionaryBuilder();
    var regions := new DictionaryBuilder();
    var cities := new DictionaryBuilder();
    var rows: seq<RangeRow> := [];
    var i := 0;
    while i < |clean|
      invariant i <= |clean|
      invariant Built(rows, countries.Value(), regions.Value(), cities.Value()) == AddRows(clean[..i])
    {
      var g := clean[i];
      assert clean[..i + 1] == clean[..i] + [g];
      AddRowsAppend(clean[..i], g);
      var country := countries.ID(g.country);
      var region := regions.ID(g.region);
      var city := cities.ID(g.city);
      rows := rows + [RangeRow(g.start, g.end, country, region, city, g.lat, g.lon)];
      i := i + 1;
    }
    assert clean[..i] == clean;
    snap := Snapshot(rows, countries.values, regions.values, cities.values);
  }

  // ---- the two builders agree ----

  function RowInterval(row: RangeRow): (U32, U32) {
    (row.start, row.end)
  }

  /** The rows of a snapshot have the intervals of its ranges. */
  lemma RowIntervals(gs: seq<GeoRange>)
    ensures MapSeq(RowInterval, SnapshotOf(gs).rows) == Intervals(gs)
  {
    hide AddRows;
    RowsAndNames(gs);
    forall k | 0 <= k < |gs|
      ensures RowInterval(SnapshotOf(gs).rows[k]) == Interval(gs[k])
    {
    }
  }

  /**
   * On a sorted list the streaming builder and the snapshot builder keep the same
   * intervals and drop the same number; without two equal intervals they build the
   * same snapshot.
   */
  lemma BuildersAgree(ranges: seq<GeoRange>, sorted: seq<GeoRange>)
    requires SortedBy(Below, ranges) && SortedCopy(Below, ranges, sorted)
    ensures var streamed, built := Greedy(ranges, None), Greedy(sorted, None);
      |streamed| == |built| &&
      MapSeq(RowInterval, SnapshotOf(streamed).rows) == MapSeq(RowInterval, SnapshotOf(built).rows) &&
      (DistinctIntervals(ranges) ==> SnapshotOf(streamed) == SnapshotOf(built))
  {
    hide Below, SnapshotOf, DistinctIntervals, MapSeq;
    SortedCopiesAgree(ranges, ranges, sorted);
    GreedyIntervals(ranges, sorted, None);
    RowIntervals(Greedy(ranges, None));
    RowIntervals(Greedy(sorted, None));
    assert |Intervals(Greedy(ranges, None))| == |Greedy(ranges, None)|;
    assert |Intervals(Greedy(sorted, None))| == |Greedy(sorted, None)|;
    if DistinctIntervals(ranges) {
      SortedCopyUnique(ranges, sorted);
    }
  }

  /**
   * On a sorted list the two builders agree, whatever sorted copy the second one works
   * on, exactly when every range with the interval of a streamed one is equal to it.
   */
  lemma BuildersAgreeExactly(ranges: seq<GeoRange>)
    requires SortedBy(Below, ranges)
    ensures (forall sorted :: SortedCopy(Below, ranges, sorted) ==>
        SnapshotOf(Greedy(sorted, None)) == SnapshotOf(Greedy(ranges, None))) <==> Unrivalled(ranges)
  {
    hide SnapshotOf, Greedy, Below, Apart;
    GreedyIsApart(ranges, None);
    KeptExactly(ranges);
    forall sorted | SortedCopy(Below, ranges, sorted)
      ensures SnapshotOf(Greedy(sorted, None)) == SnapshotOf(Greedy(ranges, None)) <==>
        Greedy(sorted, None) == Greedy(ranges, None)
    {
      GreedyIsApart(sorted, None);
      SnapshotsTell(Greedy(sorted, None), Greedy(ranges, None));
    }
  }

  /** With two equal intervals the builders may keep different ones: sorting does not fix their order. */
  lemma EqualIntervalsMayDisagree(a: GeoRange, b: GeoRange)
    requires Proper(a) && Interval(a) == Interval(b) && a.country != b.country
    ensures SortedBy(Below, [a, b]) && SortedCopy(Below, [a, b], [b, a])
    ensures SnapshotOf(Greedy([a, b], None)) != SnapshotOf(Greedy([b, a], None))
  {
    hide Greedy, SnapshotOf;
    assert multiset([a, b]) == multiset([b, a]);
    FirstOfTwo(a, b);
    FirstOfTwo(b, a);
    OneRange(a);
    OneRange(b);
  }

  lemma FirstOfTwo(a: GeoRange, b: GeoRange)
    requires Proper(a) && Interval(a) == Interval(b)
    ensures Greedy([a, b], None) == [a]
  {
    assert [a, b] == [a] + [b];
    GreedyAppend([a], b, None);
    GreedyOne(a, None);
    GreedyOne(b, Some(a.end));
  }

  lemma OneRange(a: GeoRange)
    ensures SnapshotOf([a]).countries == [a.country]
  {
    assert [] + [a] == [a];
    AddRowsAppend([], a);
    assert AddRows([]) == NOTHING_BUILT;
  }

  // ---- the CSV import, from its parsed rows on ----

  datatype ImportError = NoValidRows | InvalidRange(at: nat) | OverlappingRanges(at: nat)

  datatype Import = Import(ranges: seq<GeoRange>, snap: Snapshot, skipped: nat)

  /** Sorts, refuses improper and overlapping ranges, and builds. */
  method ReadCSVSnapshot(parsed: seq<GeoRange>) returns (r: Result<Import, ImportError>, ghost sorted: seq<GeoRange>)
    ensures SortedCopy(Below, parsed, sorted)
    ensures r.Success? <==> parsed != [] && AllProper(parsed) && PairwiseDisjoint(parsed)
    ensures r.Success? ==> SortedCopy(Below, parsed, r.value.ranges) && r.value.skipped == 0
    ensures r.Success? ==> Apart(r.value.ranges) && r.value.snap == SnapshotOf(r.value.ranges)
    ensures r.Failure? && r.error.NoValidRows? <==> parsed == []
    ensures r.Failure? && !r.error.NoValidRows? ==> FirstFault(sorted, r.error)
  {
    if parsed == [] {
      return Failure(NoValidRows), [];
    }
    BelowIsWeakOrder();
    var ranges := SortSlice(parsed, Below);
    sorted := ranges;
    NothingSkipped(parsed, ranges);
    assert |ranges| == |multiset(ranges)| == |multiset(parsed)| == |parsed|;
    DisjointPerm(parsed, ranges);
    DisjointPerm(ranges, parsed);
    ApartIsDisjoint(ranges);
    var bad := FirstBad(ranges);
    if bad.Some? {
      return Failure(bad.value), sorted;
    }
    var snap, skipped := StreamAll(ranges);
    r := Success(Import(ranges, snap, skipped));
  }

  /** The error names the first range that is improper or overlaps the one before it. */
  ghost predicate FirstFault(sorted: seq<GeoRange>, e: ImportError) {
    match e
    case NoValidRows => false
    case InvalidRange(at) => at < |sorted| && Apart(sorted[..at]) && sorted[at].end < sorted[at].start
    case OverlappingRanges(at) =>
      0 < at < |sorted| && Apart(sorted[..at]) && sorted[at].start <= sorted[at].end && sorted[at].start <= sorted[at - 1].end
  }

  /** The loop that looks for an improper range or an overlap of neighbours. */
  method FirstBad(ranges: seq<GeoRange>) returns (bad: Option<ImportError>)
    requires SortedBy(Below, ranges)
    ensures bad.None? <==> Apart(ranges)
    ensures bad.Some? ==> FirstFault(ranges, bad.value)
  {
    var i := 0;
    while i < |ranges|
      invariant i <= |ranges| && Apart(ranges[..i])
    {
      var g := ranges[i];
      if g.end < g.start {
        NotApart(ranges, i);
        return Some(InvalidRange(i));
      }
      if i > 0 {
        if g.start <= ranges[i - 1].end {
          NotApart(ranges, i);
          return Some(OverlappingRanges(i));
        }
      }
      ApartOneMore(ranges, i);
      i := i + 1;
    }
    assert ranges[..i] == ranges;
    bad := None;
  }

  lemma NotApart(s: seq<GeoRange>, i: nat)
    requires i < |s| && (!Proper(s[i]) || (i > 0 && s[i].start <= s[i - 1].end))
    ensures !Apart(s)
  {
  }

  lemma ApartOneMore(s: seq<GeoRange>, i: nat)
    requires i < |s| && Apart(s[..i]) && Proper(s[i]) && (i > 0 ==> s[i - 1].end < s[i].start)
    ensures Apart(s[..i + 1])
  {
    var t, u := s[..i], s[..i + 1];
    forall j, k | 0 <= j < k < |u|
      ensures u[j].end < u[k].start
    {
      if k < i {
        assert t[j].end < t[k].start;
      } else if j < i - 1 {
        assert t[j].end < t[i - 1].start;
        assert Proper(t[i - 1]);
      }
    }
    forall j | 0 <= j < |u|
      ensures Proper(u[j])
    {
      if j < i {
        assert Proper(t[j]);
      }
    }
  }

  /** Feeds ranges that need no skipping to the streaming builder. */
  method StreamAll(ranges: seq<GeoRange>) returns (snap: Snapshot, skipped: nat)
    ensures snap == SnapshotOf(Greedy(ranges, None))
    ensures skipped == |ranges| - |Greedy(ranges, None)|
  {
    var builder := new CompactBuilder();
    var i := 0;
    while i < |ranges|
      invariant i <= |ranges| && builder.Valid() && builder.offered == ranges[..i]
      invariant fresh(builder) && fresh(builder.countries) && fresh(builder.regions) && fresh(builder.cities)
    {
      assert ranges[..i + 1] == ranges[..i] + [ranges[i]];
      var added := builder.AddRange(ranges[i]);
      i := i + 1;
    }
    assert ranges[..i] == ranges;
    snap, skipped := builder.Build();
  }

  /** An imported snapshot skips nothing and materializes back to the returned ranges. */
  lemma ImportMaterializes(parsed: seq<GeoRange>, ranges: seq<GeoRange>)
    requires SortedCopy(Below, parsed, ranges)
    requires AllProper(parsed) && PairwiseDisjoint(parsed)
    ensures Greedy(ranges, None) == ranges
    ensures Materialize(SnapshotOf(Greedy(ranges, None))) == ranges
  {
    hide SnapshotOf, Materialize, Below, Apart;
    NothingSkipped(parsed, ranges);
    GreedyIsApart(ranges, None);
    ApartComesBack(ranges);
  }

  // ---- looking up an address ----

  predicate Covers(start: U32, end: U32, ip: U32) {
    start <= ip <= end
  }

  /** In order, each row proper and ending before the next begins. */
  ghost predicate RowsApart(rows: seq<RangeRow>) {
    (forall i :: 0 <= i < |rows| ==> rows[i].start <= rows[i].end) &&
    forall i, j :: 0 <= i < j < |rows| ==> rows[i].end < rows[j].start
  }

  /** The plain linear scan. */
  function FirstCovering(rows: seq<RangeRow>, ip: U32): Option<RangeRow> {
    if rows == [] then None
    else if Covers(rows[0].start, rows[0].end, ip) then Some(rows[0])
    else FirstCovering(rows[1..], ip)
  }

  lemma {:induction false} ScanFinds(rows: seq<RangeRow>, ip: U32)
    ensures var r := FirstCovering(rows, ip);
      match r
      case None => forall i :: 0 <= i < |rows| ==> !Covers(rows[i].start, rows[i].end, ip)
      case Some(row) => row in rows && Covers(row.start, row.end, ip)
  {
    if rows != [] && !Covers(rows[0].start, rows[0].end, ip) {
      ScanFinds(rows[1..], ip);
      assert forall i :: 1 <= i < |rows| ==> rows[i] == rows[1..][i - 1];
    }
  }

  /** In disjoint rows, a covering row is the only one, so the scan finds it. */
  lemma ScanIsUnique(rows: seq<RangeRow>, ip: U32, k: nat)
    requires RowsApart(rows) && k < |rows| && Covers(rows[k].start, rows[k].end, ip)
    ensures FirstCovering(rows, ip) == Some(rows[k])
    ensures forall j :: 0 <= j < |rows| && Covers(rows[j].start, rows[j].end, ip) ==> j == k
  {
    ScanFinds(rows, ip);
    forall j | 0 <= j < |rows| && Covers(rows[j].start, rows[j].end, ip)
      ensures j == k
    {
    }
  }

  /** Binary search for the last row that starts at or before the address. */
  method FindContainingRow(rows: seq<RangeRow>, ip: U32) returns (r: Option<RangeRow>)
    ensures r.Some? ==> r.value in rows && Covers(r.value.start, r.value.end, ip)
    ensures RowsApart(rows) ==> r == FirstCovering(rows, ip)
  {
    if rows == [] {
      return None;
    }
    var after := (k: nat) => k < |rows| && rows[k].start > ip;
    var pos := SearchFirst(|rows|, after);
    if RowsApart(rows) {
      SearchIsScan(rows, ip, pos, after);
    }
    if pos >= 1 {
      var row := rows[pos - 1];
      if ip >= row.start && ip <= row.end {
        return Some(row);
      }
    }
    r := None;
  }

  lemma SearchIsScan(rows: seq<RangeRow>, ip: U32, pos: nat, after: nat -> bool)
    requires RowsApart(rows) && pos <= |rows|
    requires forall k: nat :: after(k) <==> k < |rows| && rows[k].start > ip
    requires (forall a, b :: 0 <= a <= b < |rows| && after(a) ==> after(b)) ==>
      (forall k :: 0 <= k < pos ==> !after(k)) && forall k :: pos <= k < |rows| ==> after(k)
    ensures FirstCovering(rows, ip) ==
      if pos >= 1 && Covers(rows[pos - 1].start, rows[pos - 1].end, ip) then Some(rows[pos - 1]) else None
  {
    forall a, b | 0 <= a <= b < |rows| && after(a)
      ensures after(b)
    {
      assert a < b ==> rows[a].end < rows[b].start;
    }
    assert forall k :: 0 <= k < pos ==> !after(k);
    assert forall k :: pos <= k < |rows| ==> after(k);
    ScanAt(rows, ip, pos);
  }

  /** When exactly the rows before pos start at or before the address, only the last of them can cover it. */
  lemma ScanAt(rows: seq<RangeRow>, ip: U32, pos: nat)
    requires RowsApart(rows) && pos <= |rows|
    requires forall k :: 0 <= k < |rows| ==> (k < pos <==> rows[k].start <= ip)
    ensures FirstCovering(rows, ip) ==
      if pos >= 1 && Covers(rows[pos - 1].start, rows[pos - 1].end, ip) then Some(rows[pos - 1]) else None
  {
    ScanFinds(rows, ip);
    if pos >= 1 && Covers(rows[pos - 1].start, rows[pos - 1].end, ip) {
      ScanIsUnique(rows, ip, pos - 1);
    } else {
      hide FirstCovering;
      forall i | 0 <= i < |rows|
        ensures !Covers(rows[i].start, rows[i].end, ip)
      {
        if i < pos - 1 {
          assert rows[i].end < rows[pos - 1].start <= ip;
        }
      }
    }
  }

  /** The range found for an address, as the snapshot spells it. */
  function LookupIn(s: Snapshot, ip: U32): Option<GeoRange> {
    var row := FirstCovering(s.rows, ip);
    if row.None? then None else Some(ToGeoRange(s, row.value))
  }

  /** The range is that of a row of the snapshot which covers the address. */
  ghost predicate SpelledFrom(s: Snapshot, ip: U32, g: GeoRange) {
    exists k :: 0 <= k < |s.rows| && Covers(s.rows[k].start, s.rows[k].end, ip) && g == ToGeoRange(s, s.rows[k])
  }

  /** The published snapshot: replaced as a whole, never changed. */
  class Index {
    var data: Option<Snapshot>

    constructor ()
      ensures data == None
    {
      data := None;
    }

    method ReplaceRanges(ranges: seq<GeoRange>) returns (ghost sorted: seq<GeoRange>)
      modifies this
      ensures SortedCopy(Below, ranges, sorted) && data == Some(SnapshotOf(Greedy(sorted, None)))
    {
      var snap, skipped, order := BuildSnapshot(ranges, false);
      sorted := order;
      data := Some(snap);
    }

    method ReplaceNormalizedRanges(ranges: seq<GeoRange>)
      modifies this
      ensures data == Some(SnapshotOf(ranges))
    {
      var snap, skipped, order := BuildSnapshot(ranges, true);
      data := Some(snap);
    }

    /** No snapshot at all is published as the empty one. */
    method ReplaceBuiltSnapshot(built: Option<Snapshot>)
      modifies this
      ensures data == Some(built.GetOr(EMPTY_SNAPSHOT))
    {
      data := Some(built.GetOr(EMPTY_SNAPSHOT));
    }

    method LookupRange(v6: string -> Option<U32>, ipStr: string) returns (r: Option<GeoRange>)
      ensures data == None || Cidr.ParseAddress(v6, Cidr.GoTrim(ipStr)) == None ==> r == None
      ensures data.Some? && Cidr.ParseAddress(v6, Cidr.GoTrim(ipStr)).Some? && RowsApart(data.value.rows) ==>
        r == LookupIn(data.value, Cidr.ParseAddress(v6, Cidr.GoTrim(ipStr)).value)
      ensures r.Some? ==>
        data.Some? && Cidr.ParseAddress(v6, Cidr.GoTrim(ipStr)).Some? &&
        SpelledFrom(data.value, Cidr.ParseAddress(v6, Cidr.GoTrim(ipStr)).value, r.value)
    {
      hide Cidr.ParseAddress, Cidr.GoTrim;
      var ip := Cidr.ParseAddress(v6, Cidr.GoTrim(ipStr));
      if ip.None? || data.None? {
        return None;
      }
      var row := FindContainingRow(data.value.rows, ip.value);
      if row.None? {
        return None;
      }
      r := Some(ToGeoRange(data.value, row.value));
    }
  }

  lemma RowsApartOf(gs: seq<GeoRange>)
    requires Apart(gs)
    ensures RowsApart(SnapshotOf(gs).rows)
  {
    hide AddRows;
    RowsAndNames(gs);
    var rows := SnapshotOf(gs).rows;
    forall i | 0 <= i < |rows|
      ensures rows[i].start <= rows[i].end
    {
      assert Proper(gs[i]);
    }
    forall i, j | 0 <= i < j < |rows|
      ensures rows[i].end < rows[j].start
    {
      assert gs[i].end < gs[j].start;
    }
  }

  /** Nothing is found exactly when no range covers the address. */
  lemma LookupMisses(clean: seq<GeoRange>, ip: U32)
    requires Apart(clean)
    ensures LookupIn(SnapshotOf(clean), ip) == None <==>
      forall k :: 0 <= k < |clean| ==> !Covers(clean[k].start, clean[k].end, ip)
  {
    hide AddRows, LookupString, Apart;
    RowsAndNames(clean);
    var rows := SnapshotOf(clean).rows;
    ScanFinds(rows, ip);
    if FirstCovering(rows, ip).Some? {
      var k :| 0 <= k < |rows| && rows[k] == FirstCovering(rows, ip).value;
      assert Covers(clean[k].start, clean[k].end, ip);
    } else {
      assert forall k :: 0 <= k < |clean| ==> rows[k].start == clean[k].start && rows[k].end == clean[k].end;
    }
  }

  /** The only range that covers the address is found. */
  lemma LookupHits(clean: seq<GeoRange>, ip: U32, k: nat)
    requires Apart(clean) && k < |clean| && Covers(clean[k].start, clean[k].end, ip)
    ensures LookupIn(SnapshotOf(clean), ip) == Some(clean[k])
  {
    hide AddRows, LookupString, Apart, NamesFit, RowsApart, FirstCovering;
    var snap := SnapshotOf(clean);
    RowsApartOf(clean);
    RowsAndNames(clean);
    ApartComesBack(clean);
    ScanIsUnique(snap.rows, ip, k);
    assert Materialize(snap)[k] == ToGeoRange(snap, snap.rows[k]);
  }

  /**
   * After ReplaceRanges of any list: rows are disjoint, an address is found exactly
   * when a kept range covers it, and what is found is that very range of the list.
   */
  lemma LookupAfterReplace(ranges: seq<GeoRange>, sorted: seq<GeoRange>, ip: U32)
    requires SortedCopy(Below, ranges, sorted)
    ensures var clean, found := Greedy(sorted, None), LookupIn(SnapshotOf(Greedy(sorted, None)), ip);
      RowsApart(SnapshotOf(clean).rows) &&
      (found.Some? <==> exists k :: 0 <= k < |clean| && Covers(clean[k].start, clean[k].end, ip)) &&
      (forall k :: 0 <= k < |clean| && Covers(clean[k].start, clean[k].end, ip) ==> found == Some(clean[k])) &&
      (found.Some? ==> found.value in ranges)
  {
    hide SnapshotOf, Below, Greedy, LookupIn, RowsApart, Covers, Apart;
    var clean := Greedy(sorted, None);
    var found := LookupIn(SnapshotOf(clean), ip);
    NormalizedRanges(ranges, sorted);
    RowsApartOf(clean);
    LookupMisses(clean, ip);
    forall k | 0 <= k < |clean| && Covers(clean[k].start, clean[k].end, ip)
      ensures found == Some(clean[k])
    {
      LookupHits(clean, ip, k);
    }
    if found.Some? {
      var k :| 0 <= k < |clean| && Covers(clean[k].start, clean[k].end, ip);
      assert found.value in multiset(clean);
      assert found.value in multiset(ranges);
    }
  }
}
