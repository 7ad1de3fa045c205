/** Building compact snapshots: name dictionaries, the streaming builder and the CSV import. */
module GeoBuilder {
  import opened Common
  import opened Lists
  import opened GeoModel
  import opened GeoRanges

  // ---- dictionaries ----

  datatype Dict = Dict(ids: map<Bytes, U32>, values: seq<Bytes>)

  const NO_NAMES := Dict(map[], [])

  /** A new name gets the next id; the id is a 32-bit word, the list of names is not bounded. */
  function Intern(d: Dict, name: Bytes): Dict {
    if name in d.ids then d else Dict(d.ids[name := Wrap32(|d.values|)], d.values + [name])
  }

  function InternAll(names: seq<Bytes>): Dict {
    if names == [] then NO_NAMES else Intern(InternAll(names[..|names| - 1]), names[|names| - 1])
  }

  /** Each name is listed once, and its id is its position as a 32-bit word. */
  ghost predicate DictOk(d: Dict) {
    (forall i, j :: 0 <= i < j < |d.values| ==> d.values[i] != d.values[j]) &&
    (forall name :: name in d.ids <==> name in d.values) &&
    forall k :: 0 <= k < |d.values| ==> d.values[k] in d.ids && d.ids[d.values[k]] == Wrap32(k)
  }

  lemma InternKeeps(d: Dict, name: Bytes)
    requires DictOk(d)
    ensures DictOk(Intern(d, name)) && name in Intern(d, name).ids
    ensures d.values <= Intern(d, name).values
    ensures forall n :: n in Intern(d, name).ids <==> n in d.ids || n == name
    ensures forall n :: n in d.ids ==> Intern(d, name).ids[n] == d.ids[n]
  {
    hide Wrap32;
    if name !in d.ids {
      var e := Intern(d, name);
      forall n
        ensures n in e.ids <==> n in e.values
      {
        assert e.values[|d.values|] == name;
        assert n in d.values ==> n in e.values;
      }
      forall k | 0 <= k < |e.values|
        ensures e.values[k] in e.ids && e.ids[e.values[k]] == Wrap32(k)
      {
        if k < |d.values| {
          assert e.values[k] == d.values[k];
        }
      }
    }
  }

  /** The dictionary of a list of names holds exactly these names. */
  lemma {:induction false} InternAllOk(names: seq<Bytes>)
    ensures DictOk(InternAll(names))
    ensures forall n :: n in InternAll(names).ids <==> n in names
  {
    hide DictOk, Intern;
    if names == [] {
      NoNamesOk();
    } else {
      var init, last := names[..|names| - 1], names[|names| - 1];
      InternAllOk(init);
      InternKeeps(InternAll(init), last);
      assert names == init + [last];
    }
  }

  lemma NoNamesOk()
    ensures DictOk(NO_NAMES)
  {
  }

  /** The reader's view: an id past the list stands for the empty name. */
  function LookupString(values: seq<Bytes>, id: U32): Bytes {
    if id < |values| then values[id] else []
  }

  /** Every name comes back from its id. */
  ghost predicate Bijective(d: Dict) {
    forall name :: name in d.ids ==> LookupString(d.values, d.ids[name]) == name
  }

  /** Ids are unambiguous exactly when there are no more names than 32-bit words. */
  lemma IdsAreBijective(d: Dict)
    requires DictOk(d)
    ensures Bijective(d) <==> |d.values| <= TWO32
    ensures |d.values| <= TWO32 ==> forall a, b :: a in d.ids && b in d.ids && d.ids[a] == d.ids[b] ==> a == b
  {
    if |d.values| <= TWO32 {
      forall name | name in d.ids
        ensures LookupString(d.values, d.ids[name]) == name
      {
        var k :| 0 <= k < |d.values| && d.values[k] == name;
        assert Wrap32(k) == k;
      }
    } else {
      var late := d.values[TWO32];
      assert d.ids[late] == Wrap32(TWO32) == 0;
      assert d.values[0] != late;
    }
  }

  /** A dictionary under construction. */
  class DictionaryBuilder {
    var ids: map<Bytes, U32>
    var values: seq<Bytes>

    constructor ()
      ensures Value() == NO_NAMES
    {
      ids, values := map[], [];
    }

    function Value(): Dict
      reads this
    {
      Dict(ids, values)
    }

    method ID(value: Bytes) returns (id: U32)
      modifies this
      ensures Value() == Intern(old(Value()), value)
      ensures value in Value().ids && id == Value().ids[value]
    {
      if value in ids {
        return ids[value];
      }
      id := Wrap32(|values|);
      ids := ids[value := id];
      values := values + [value];
    }
  }

  // ---- rows ----

  /** What a builder holds: rows and the three dictionaries. */
  datatype Built = Built(rows: seq<RangeRow>, countries: Dict, regions: Dict, cities: Dict)

  const NOTHING_BUILT := Built([], NO_NAMES, NO_NAMES, NO_NAMES)

  function RowOf(g: GeoRange, countries: Dict, regions: Dict, cities: Dict): RangeRow {
    RangeRow(g.start, g.end, IdOf(countries, g.country), IdOf(regions, g.region), IdOf(cities, g.city), g.lat, g.lon)
  }

  function IdOf(d: Dict, name: Bytes): U32 {
    if name in d.ids then d.ids[name] else 0
  }

  function AddRow(b: Built, g: GeoRange): Built {
    var countries := Intern(b.countries, g.country);
    var regions := Intern(b.regions, g.region);
    var cities := Intern(b.cities, g.city);
    Built(b.rows + [RowOf(g, countries, regions, cities)], countries, regions, cities)
  }

  function AddRows(gs: seq<GeoRange>): Built {
    if gs == [] then NOTHING_BUILT else AddRow(AddRows(gs[..|gs| - 1]), gs[|gs| - 1])
  }

  function ToSnapshot(b: Built): Snapshot {
    Snapshot(b.rows, b.countries.values, b.regions.values, b.cities.values)
  }

  /** The snapshot of ranges taken as they are. */
  function SnapshotOf(gs: seq<GeoRange>): Snapshot {
    ToSnapshot(AddRows(gs))
  }

  function ToGeoRange(s: Snapshot, row: RangeRow): GeoRange {
    GeoRange(row.start, row.end, LookupString(s.countries, row.countryId), LookupString(s.regions, row.regionId),
             LookupString(s.cities, row.cityId), row.lat, row.lon)
  }

  /** An id that no dictionary entry has, as a file may hold, reads as the empty name. */
  lemma UnknownIdIsEmpty(s: Snapshot, row: RangeRow)
    ensures row.countryId >= |s.countries| ==> ToGeoRange(s, row).country == []
    ensures row.regionId >= |s.regions| ==> ToGeoRange(s, row).region == []
    ensures row.cityId >= |s.cities| ==> ToGeoRange(s, row).city == []
  {
  }

  /** The ranges a snapshot stands for. */
  function Materialize(s: Snapshot): seq<GeoRange> {
    MapSeq((row: RangeRow) => ToGeoRange(s, row), s.rows)
  }

  /** Makes the ranges of a snapshot, row by row. */
  method Ranges(s: Snapshot) returns (out: seq<GeoRange>)
    ensures out == Materialize(s)
  {
    out := [];
    var i := 0;
    while i < |s.rows|
      invariant i <= |s.rows| && |out| == i
      invariant forall k :: 0 <= k < i ==> out[k] == ToGeoRange(s, s.rows[k])
    {
      out := out + [ToGeoRange(s, s.rows[i])];
      i := i + 1;
    }
  }

  function Country(g: GeoRange): Bytes {
    g.country
  }

  function Region(g: GeoRange): Bytes {
    g.region
  }

  function City(g: GeoRange): Bytes {
    g.city
  }

  lemma {:induction false} InternAllMap(f: GeoRange -> Bytes, gs: seq<GeoRange>, g: GeoRange)
    ensures InternAll(MapSeq(f, gs + [g])) == Intern(InternAll(MapSeq(f, gs)), f(g))
  {
    var names := MapSeq(f, gs + [g]);
    assert names[..|names| - 1] == MapSeq(f, gs);
  }

  lemma AddRowsAppend(gs: seq<GeoRange>, g: GeoRange)
    ensures AddRows(gs + [g]) == AddRow(AddRows(gs), g)
  {
    assert (gs + [g])[..|gs|] == gs;
  }

  /** The dictionaries are those of the three columns; each row holds its range's ids. */
  lemma {:induction false} RowsAndNames(gs: seq<GeoRange>)
    ensures AddRows(gs).countries == InternAll(MapSeq(Country, gs))
    ensures AddRows(gs).regions == InternAll(MapSeq(Region, gs))
    ensures AddRows(gs).cities == InternAll(MapSeq(City, gs))
    ensures |AddRows(gs).rows| == |gs|
    ensures forall k :: 0 <= k < |gs| ==>
      AddRows(gs).rows[k] == RowOf(gs[k], AddRows(gs).countries, AddRows(gs).regions, AddRows(gs).cities)
  {
    if gs != [] {
      hide InternAll, Intern, MapSeq;
      var init, last := gs[..|gs| - 1], gs[|gs| - 1];
      assert gs == init + [last];
      RowsAndNames(init);
      InternAllMap(Country, init, last);
      InternAllMap(Region, init, last);
      InternAllMap(City, init, last);
      InternGrows(Country, init, last);
      InternGrows(Region, init, last);
      InternGrows(City, init, last);
      var b, c := AddRows(init), AddRows(gs);
      assert c == AddRow(b, last);
      forall k | 0 <= k < |gs|
        ensures c.rows[k] == RowOf(gs[k], c.countries, c.regions, c.cities)
      {
        if k < |init| {
          assert c.rows[k] == b.rows[k] && gs[k] == init[k];
        }
      }
    }
  }

  /** Ids given out earlier stay. */
  lemma InternGrows(f: GeoRange -> Bytes, gs: seq<GeoRange>, g: GeoRange)
    ensures var d := InternAll(MapSeq(f, gs));
      forall k :: 0 <= k < |gs| ==> IdOf(Intern(d, f(g)), f(gs[k])) == IdOf(d, f(gs[k]))
  {
    hide DictOk, InternAll, Intern;
    var names := MapSeq(f, gs);
    InternAllOk(names);
    InternKeeps(InternAll(names), f(g));
    forall k | 0 <= k < |gs|
      ensures IdOf(Intern(InternAll(names), f(g)), f(gs[k])) == IdOf(InternAll(names), f(gs[k]))
    {
      assert names[k] == f(gs[k]);
      assert f(gs[k]) in InternAll(names).ids;
    }
  }

  // ---- a snapshot stands for the ranges it was built from ----

  /** No column has more names than there are 32-bit ids. */
  ghost predicate NamesFit(s: Snapshot) {
    |s.countries| <= TWO32 && |s.regions| <= TWO32 && |s.cities| <= TWO32
  }

  /** A column comes back, range by range, exactly when its names fit. */
  lemma ColumnComesBack(f: GeoRange -> Bytes, gs: seq<GeoRange>, d: Dict)
    requires d == InternAll(MapSeq(f, gs))
    ensures (forall k :: 0 <= k < |gs| ==> LookupString(d.values, IdOf(d, f(gs[k]))) == f(gs[k])) <==> |d.values| <= TWO32
  {
    hide DictOk, InternAll, LookupString;
    var names := MapSeq(f, gs);
    InternAllOk(names);
    IdsAreBijective(d);
    if Bijective(d) {
      forall k | 0 <= k < |gs|
        ensures LookupString(d.values, IdOf(d, f(gs[k]))) == f(gs[k])
      {
        assert names[k] == f(gs[k]);
      }
    } else {
      var name :| name in d.ids && LookupString(d.values, d.ids[name]) != name;
      var k :| 0 <= k < |names| && names[k] == name;
      assert f(gs[k]) == name;
    }
  }

  /** Materializing gives back the very ranges exactly when the names of each column fit. */
  lemma MaterializeIsExact(gs: seq<GeoRange>)
    ensures Materialize(SnapshotOf(gs)) == gs <==> NamesFit(SnapshotOf(gs))
  {
    hide InternAll, LookupString, AddRows;
    var b, s := AddRows(gs), SnapshotOf(gs);
    RowsAndNames(gs);
    ColumnComesBack(Country, gs, b.countries);
    ColumnComesBack(Region, gs, b.regions);
    ColumnComesBack(City, gs, b.cities);
    if NamesFit(s) {
      forall k | 0 <= k < |gs|
        ensures Materialize(s)[k] == gs[k]
      {
        assert Country(gs[k]) == gs[k].country && Region(gs[k]) == gs[k].region && City(gs[k]) == gs[k].city;
      }
    }
    if Materialize(s) == gs {
      forall k | 0 <= k < |gs|
        ensures LookupString(b.countries.values, IdOf(b.countries, Country(gs[k]))) == Country(gs[k])
        ensures LookupString(b.regions.values, IdOf(b.regions, Region(gs[k]))) == Region(gs[k])
        ensures LookupString(b.cities.values, IdOf(b.cities, City(gs[k]))) == City(gs[k])
      {
        assert Materialize(s)[k] == ToGeoRange(s, b.rows[k]);
      }
    }
  }

  /** Names that are all different are all listed. */
  lemma {:induction false} DifferentNames(names: seq<Bytes>)
    requires forall i, j :: 0 <= i < j < |names| ==> names[i] != names[j]
    ensures |InternAll(names).values| == |names|
  {
    if names != [] {
      var init := names[..|names| - 1];
      assert forall i :: 0 <= i < |init| ==> init[i] == names[i];
      DifferentNames(init);
      InternAllOk(init);
    }
  }

  /** A name of k zero bytes. */
  function LongName(k: nat): Bytes {
    seq(k, i => 0)
  }

  /** Overlapping ranges, each with a country of its own. */
  function OwnCountries(n: nat): (gs: seq<GeoRange>)
    ensures |gs| == n && forall k :: 0 <= k < n ==> gs[k].country == LongName(k)
  {
    seq(n, k requires 0 <= k < n => GeoRange(0, 0, LongName(k), [], [], 0, 0))
  }

  /** With more names than ids, ranges published as they are do not come back. */
  lemma IdsRunOut(n: nat)
    requires n > TWO32
    ensures !NamesFit(SnapshotOf(OwnCountries(n))) && Materialize(SnapshotOf(OwnCountries(n))) != OwnCountries(n)
  {
    hide AddRows, InternAll;
    var gs := OwnCountries(n);
    var names := MapSeq(Country, gs);
    forall i, j | 0 <= i < j < |names|
      ensures names[i] != names[j]
    {
      assert |names[i]| == i && |names[j]| == j;
    }
    DifferentNames(names);
    RowsAndNames(gs);
    MaterializeIsExact(gs);
  }

  // ---- ranges that do not overlap are never too many ----

  /** Disjoint ranges in order: the k-th one starts at k or later. */
  lemma {:induction false} ApartStarts(gs: seq<GeoRange>, k: nat)
    requires Apart(gs) && k < |gs|
    ensures k <= gs[k].start
    decreases k
  {
    if k > 0 {
      ApartStarts(gs, k - 1);
      assert gs[k - 1].end < gs[k].start && Proper(gs[k - 1]);
    }
  }

  lemma {:induction false} NoMoreNames(names: seq<Bytes>)
    ensures |InternAll(names).values| <= |names|
  {
    if names != [] {
      NoMoreNames(names[..|names| - 1]);
    }
  }

  /** There is room for the names of any list of disjoint ranges, so it comes back as it was. */
  lemma ApartComesBack(gs: seq<GeoRange>)
    requires Apart(gs)
    ensures |gs| <= TWO32 && NamesFit(SnapshotOf(gs)) && Materialize(SnapshotOf(gs)) == gs
  {
    hide InternAll, AddRows, Apart, Materialize;
    if gs != [] {
      ApartStarts(gs, |gs| - 1);
    }
    RowsAndNames(gs);
    NoMoreNames(MapSeq(Country, gs));
    NoMoreNames(MapSeq(Region, gs));
    NoMoreNames(MapSeq(City, gs));
    MaterializeIsExact(gs);
  }

  /** Disjoint ranges with the same snapshot are the same. */
  lemma SnapshotsTell(a: seq<GeoRange>, b: seq<GeoRange>)
    requires Apart(a) && Apart(b)
    ensures SnapshotOf(a) == SnapshotOf(b) <==> a == b
  {
    hide SnapshotOf, Materialize;
    ApartComesBack(a);
    ApartComesBack(b);
  }
}
