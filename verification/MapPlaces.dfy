/** Where lines and points are drawn: averages stay in the hull, pinned keys stay in their centre. */
module MapPlaces {
  import opened Common
  import opened MapModel
  import opened MapBuild
  import opened MapLaws
  import opened MapPairs

  // ---- every drawn point has weight ----

  lemma {:induction false} NodeWeight(t: Centres, rows: seq<EdgeRow>, key: string, i: nat)
    requires i < |rows| && BothValid(t, rows[i]) && (rows[i].srcKey == key || rows[i].dstKey == key)
    ensures NodeOf(t, rows, key).coordCount >= rows[i].count
  {
    hide Plus, GeoMetaFromEdge;
    MetaKeys(t, rows[i]);
    if i < |rows| - 1 {
      assert rows[..|rows| - 1][i] == rows[i];
      NodeWeight(t, rows[..|rows| - 1], key, i);
    }
  }

  lemma {:induction false} NodeKey(t: Centres, rows: seq<EdgeRow>, key: string)
    ensures NodeOf(t, rows, key).count > 0 ==> NodeOf(t, rows, key).key == key
    ensures NodeOf(t, rows, key).coordCount <= NodeOf(t, rows, key).count
  {
    hide Plus, GeoMetaFromEdge;
    if rows != [] {
      MetaKeys(t, rows[|rows| - 1]);
      NodeKey(t, rows[..|rows| - 1], key);
    }
  }

  /** The ends of a line are those of a row with two valid ends and a count. */
  ghost predicate EndOfRow(t: Centres, rows: seq<EdgeRow>, key: string, i: nat) {
    i < |rows| && BothValid(t, rows[i]) && rows[i].count > 0 && (rows[i].srcKey == key || rows[i].dstKey == key)
  }

  lemma {:induction false} RowOfEnd(t: Centres, act: string -> Status, rows: seq<EdgeRow>, order: seq<string>, key: string)
    returns (i: nat)
    requires key in Ends(LinesOf(t, act, rows, order))
    ensures EndOfRow(t, rows, key, i)
  {
    hide EdgeOf, Ends, Emitted, BothValid;
    i := 0;
    NothingEmitted(t, act, rows);
    if order != [] {
      var init, k := order[..|order| - 1], order[|order| - 1];
      var e := EdgeOf(t, rows, k);
      EndsJoin(LinesOf(t, act, rows, init), Emitted(act, e));
      if key in Ends(LinesOf(t, act, rows, init)) {
        i := RowOfEnd(t, act, rows, init, key);
      } else {
        EmittedEnds(act, e);
        WeightIsCount(t, rows, k);
        i := NamingRow(t, rows, k);
      }
    }
  }

  /** Each point of the map bears its own key and has a positive coordinate weight. */
  lemma PointsHaveWeight(t: Centres, act: string -> Status, rows: seq<EdgeRow>, order: seq<string>, key: string)
    requires key in Ends(LinesOf(t, act, rows, order))
    ensures NodeOf(t, rows, key).coordCount > 0 && NodeOf(t, rows, key).key == key
  {
    hide NodeOf, LinesOf, Ends, BothValid;
    var i := RowOfEnd(t, act, rows, order, key);
    NodeWeight(t, rows, key, i);
    NodeKey(t, rows, key);
  }

  // ---- averages ----

  /** A closed half-plane: a * lat + b * lon <= c. */
  datatype HalfPlane = HalfPlane(a: real, b: real, c: real)

  predicate Inside(h: HalfPlane, p: Geo) {
    h.a * p.lat + h.b * p.lon <= h.c
  }

  /** The sum of positions inside, taken w times in all. */
  predicate SumInside(h: HalfPlane, sum: Geo, w: nat) {
    h.a * sum.lat + h.b * sum.lon <= h.c * (w as real)
  }

  lemma PlusInside(h: HalfPlane, sum: Geo, total: nat, p: Geo, w: nat)
    requires SumInside(h, sum, total) && (w > 0 ==> Inside(h, p))
    ensures SumInside(h, Plus(sum, p, w), total + w)
  {
    if w == 0 {
      return;
    }
    var r := w as real;
    var q := h.a * p.lat + h.b * p.lon;
    ScaleLe(q, h.c, r);
    Spread(h.a, sum.lat, p.lat, r);
    Spread(h.b, sum.lon, p.lon, r);
    assert q * r == h.a * p.lat * r + h.b * p.lon * r;
    assert h.c * ((total + w) as real) == h.c * (total as real) + h.c * r;
  }

  lemma ScaleLe(x: real, y: real, r: real)
    requires x <= y && r >= 0.0
    ensures x * r <= y * r
  {
  }

  lemma Spread(a: real, s: real, x: real, r: real)
    ensures a * (s + x * r) == a * s + a * x * r
  {
  }

  lemma MeanInside(h: HalfPlane, sum: Geo, w: nat)
    requires SumInside(h, sum, w) && w > 0
    ensures Inside(h, Mean(sum, w))
  {
    var r := w as real;
    var x, y := sum.lat / r, sum.lon / r;
    Unscale(h.a, h.b, x, y, r);
    assert x * r == sum.lat && y * r == sum.lon;
    NotAbove(h.a * x + h.b * y, h.c, r);
  }

  lemma Unscale(a: real, b: real, x: real, y: real, r: real)
    ensures a * (x * r) + b * (y * r) == (a * x + b * y) * r
  {
  }

  lemma NotAbove(x: real, y: real, r: real)
    requires x * r <= y * r && r > 0.0
    ensures x <= y
  {
    assert (x - y) * r <= 0.0;
  }

  /** Every valid end with this key that counts anything lies inside. */
  ghost predicate EndsInside(t: Centres, rows: seq<EdgeRow>, key: string, h: HalfPlane) {
    forall i :: 0 <= i < |rows| && rows[i].count > 0 ==>
      (rows[i].srcKey == key && SrcMeta(t, rows[i]).valid ==> Inside(h, SrcMeta(t, rows[i]).at)) &&
      (rows[i].dstKey == key && DstMeta(t, rows[i]).valid ==> Inside(h, DstMeta(t, rows[i]).at))
  }

  lemma {:induction false} NodeInside(t: Centres, rows: seq<EdgeRow>, key: string, h: HalfPlane)
    requires EndsInside(t, rows, key, h)
    ensures SumInside(h, NodeOf(t, rows, key).sum, NodeOf(t, rows, key).coordCount)
  {
    hide Plus, SrcMeta, DstMeta, Inside, SumInside;
    if rows == [] {
      NothingInside(h);
    } else {
      var init, last := rows[..|rows| - 1], rows[|rows| - 1];
      assert forall i :: 0 <= i < |init| ==> init[i] == rows[i];
      NodeInside(t, init, key, h);
      var n := NodeOf(t, init, key);
      var s, d := SrcMeta(t, last), DstMeta(t, last);
      var m := if last.srcKey == key then AddNode(n, s, last.count) else n;
      if last.srcKey == key && s.valid {
        PlusInside(h, n.sum, n.coordCount, s.at, last.count);
      }
      if last.dstKey == key && d.valid {
        PlusInside(h, m.sum, m.coordCount, d.at, last.count);
      }
    }
  }

  lemma NothingInside(h: HalfPlane)
    ensures SumInside(h, ORIGIN, 0)
  {
  }

  /**
   * Each point lies in the convex hull of the valid positions of its ends: any
   * half-plane that contains them all contains the point.
   */
  lemma PointsLieInHull(t: Centres, act: string -> Status, rows: seq<EdgeRow>, order: seq<string>, key: string, h: HalfPlane)
    requires key in Ends(LinesOf(t, act, rows, order)) && EndsInside(t, rows, key, h)
    ensures Inside(h, ToNode(NodeOf(t, rows, key)).at)
  {
    hide NodeOf, LinesOf, Ends, EndsInside, SumInside, Inside, Mean;
    PointsHaveWeight(t, act, rows, order, key);
    NodeInside(t, rows, key, h);
    MeanInside(h, NodeOf(t, rows, key).sum, NodeOf(t, rows, key).coordCount);
  }

  // ---- line ends ----

  /** A located row with this joined key that counts anything. */
  predicate Counted(t: Centres, rows: seq<EdgeRow>, key: string, i: nat) {
    i < |rows| && BothValid(t, rows[i]) && EdgeKey(rows[i]) == key && rows[i].count > 0
  }

  /** The sources of all rows of an edge that count anything lie inside; so for targets. */
  ghost predicate SourcesInside(t: Centres, rows: seq<EdgeRow>, key: string, h: HalfPlane) {
    forall i :: 0 <= i < |rows| && Counted(t, rows, key, i) ==> Inside(h, SrcMeta(t, rows[i]).at)
  }

  ghost predicate TargetsInside(t: Centres, rows: seq<EdgeRow>, key: string, h: HalfPlane) {
    forall i :: 0 <= i < |rows| && Counted(t, rows, key, i) ==> Inside(h, DstMeta(t, rows[i]).at)
  }

  lemma {:induction false} EdgeInside(t: Centres, rows: seq<EdgeRow>, key: string, h: HalfPlane)
    ensures SourcesInside(t, rows, key, h) ==> SumInside(h, EdgeOf(t, rows, key).srcSum, EdgeOf(t, rows, key).coordWeight)
    ensures TargetsInside(t, rows, key, h) ==> SumInside(h, EdgeOf(t, rows, key).dstSum, EdgeOf(t, rows, key).coordWeight)
  {
    hide Plus, SrcMeta, DstMeta, Inside, SumInside, Wrap64, EdgeKey;
    if rows == [] {
      NothingInside(h);
    } else {
      var init, last := rows[..|rows| - 1], rows[|rows| - 1];
      InsideInit(t, rows, key, h);
      EdgeInside(t, init, key, h);
      var e := EdgeOf(t, init, key);
      hide SourcesInside, TargetsInside;
      if BothValid(t, last) && EdgeKey(last) == key {
        if SourcesInside(t, rows, key, h) {
          PlusInside(h, e.srcSum, e.coordWeight, SrcMeta(t, last).at, last.count);
        }
        if TargetsInside(t, rows, key, h) {
          PlusInside(h, e.dstSum, e.coordWeight, DstMeta(t, last).at, last.count);
        }
      }
    }
  }

  lemma InsideInit(t: Centres, rows: seq<EdgeRow>, key: string, h: HalfPlane)
    requires rows != []
    ensures SourcesInside(t, rows, key, h) ==> SourcesInside(t, rows[..|rows| - 1], key, h)
    ensures TargetsInside(t, rows, key, h) ==> TargetsInside(t, rows[..|rows| - 1], key, h)
    ensures var last := rows[|rows| - 1];
      BothValid(t, last) && EdgeKey(last) == key && last.count > 0 ==>
        (SourcesInside(t, rows, key, h) ==> Inside(h, SrcMeta(t, last).at)) &&
        (TargetsInside(t, rows, key, h) ==> Inside(h, DstMeta(t, last).at))
  {
    hide SrcMeta, DstMeta, Inside, EdgeKey, BothValid;
    var init := rows[..|rows| - 1];
    assert Counted(t, rows, key, |rows| - 1) <==>
      BothValid(t, rows[|rows| - 1]) && EdgeKey(rows[|rows| - 1]) == key && rows[|rows| - 1].count > 0;
    forall i: nat | i < |init|
      ensures Counted(t, init, key, i) ==> Counted(t, rows, key, i) && init[i] == rows[i]
    {
    }
  }

  lemma LineEndsInside(t: Centres, act: string -> Status, rows: seq<EdgeRow>, key: string, h: HalfPlane, l: Line)
    requires l in Emitted(act, EdgeOf(t, rows, key))
    ensures SourcesInside(t, rows, key, h) ==> Inside(h, l.srcAt)
    ensures TargetsInside(t, rows, key, h) ==> Inside(h, l.dstAt)
  {
    hide EdgeOf, SourcesInside, TargetsInside, SumInside, Inside, Mean, AllowedShare, BlockedShare, StatusOf;
    EdgeInside(t, rows, key, h);
    var e := EdgeOf(t, rows, key);
    assert l.srcAt == Mean(e.srcSum, e.coordWeight) && l.dstAt == Mean(e.dstSum, e.coordWeight);
    if SourcesInside(t, rows, key, h) {
      MeanInside(h, e.srcSum, e.coordWeight);
    }
    if TargetsInside(t, rows, key, h) {
      MeanInside(h, e.dstSum, e.coordWeight);
    }
  }

  // ---- pinned keys ----

  /** The centre a key is pinned to, whatever its rows say. */
  function Pin(t: Centres, key: string): Option<Geo> {
    if HiddenKey(key) then None
    else if t.continent(key).Some? then t.continent(key)
    else if HasCountryPrefix(key) then t.country(key[|COUNTRY_PREFIX|..])
    else None
  }

  /** A pinned end sits in its centre, unless the centre is the origin, which stands for no position. */
  lemma PinnedMeta(t: Centres, key: string, country: string, at: Geo)
    requires Pin(t, key).Some?
    ensures GeoMetaFromEdge(t, key, country, at) ==
      if Pin(t, key).value != ORIGIN then Meta(key, Pin(t, key).value, true)
      else Meta(key, t.country(country).GetOr(ORIGIN), t.country(country).Some?)
  {
  }

  /**
   * An end that no table pins keeps its row's position, except a nameless city of a
   * known country, and falls back to its country when it has none; hidden keys have none.
   */
  lemma UnpinnedMeta(t: Centres, key: string, country: string, at: Geo)
    requires Pin(t, key).None?
    ensures var m := GeoMetaFromEdge(t, key, country, at);
      m.key == key &&
      (HiddenKey(key) || (at == ORIGIN && t.country(country).None?) ==> !m.valid) &&
      (!HiddenKey(key) && at != ORIGIN && (!HasCountryPrefix(key) || t.country(country).None?) ==> m.valid && m.at == at) &&
      (!HiddenKey(key) && t.country(country).Some? && (HasCountryPrefix(key) || at == ORIGIN) ==>
        m.valid && m.at == t.country(country).value)
  {
  }

  /**
   * The half-plane holds what an unpinned end can be drawn at: the row's own position,
   * or the centre of its country for a nameless city and for a row without position.
   */
  predicate HoldsEnd(t: Centres, h: HalfPlane, key: string, country: string, at: Geo) {
    var centre := t.country(country);
    (at != ORIGIN && (!HasCountryPrefix(key) || centre.None?) ==> Inside(h, at)) &&
    (centre.Some? && (HasCountryPrefix(key) || at == ORIGIN) ==> Inside(h, centre.value))
  }

  lemma HeldEnds(t: Centres, rows: seq<EdgeRow>, key: string, h: HalfPlane)
    requires Pin(t, key).None?
    requires forall i :: 0 <= i < |rows| && rows[i].count > 0 && rows[i].srcKey == key ==> HoldsEnd(t, h, key, rows[i].srcCountry, rows[i].srcAt)
    requires forall i :: 0 <= i < |rows| && rows[i].count > 0 && rows[i].dstKey == key ==> HoldsEnd(t, h, key, rows[i].dstCountry, rows[i].dstAt)
    ensures EndsInside(t, rows, key, h)
  {
    hide GeoMetaFromEdge, Pin, Inside, HiddenKey, HasCountryPrefix;
    forall i | 0 <= i < |rows| && rows[i].count > 0
      ensures rows[i].srcKey == key && SrcMeta(t, rows[i]).valid ==> Inside(h, SrcMeta(t, rows[i]).at)
      ensures rows[i].dstKey == key && DstMeta(t, rows[i]).valid ==> Inside(h, DstMeta(t, rows[i]).at)
    {
      UnpinnedMeta(t, key, rows[i].srcCountry, rows[i].srcAt);
      UnpinnedMeta(t, key, rows[i].dstCountry, rows[i].dstAt);
    }
  }

  /**
   * The point of a key that no table pins lies in the hull of its rows' own positions
   * and, where a row has none or the key is a nameless city, of its country's centre.
   */
  lemma UnpinnedPoint(t: Centres, act: string -> Status, rows: seq<EdgeRow>, order: seq<string>, key: string, h: HalfPlane)
    requires key in Ends(LinesOf(t, act, rows, order)) && Pin(t, key).None?
    requires forall i :: 0 <= i < |rows| && rows[i].count > 0 && rows[i].srcKey == key ==> HoldsEnd(t, h, key, rows[i].srcCountry, rows[i].srcAt)
    requires forall i :: 0 <= i < |rows| && rows[i].count > 0 && rows[i].dstKey == key ==> HoldsEnd(t, h, key, rows[i].dstCountry, rows[i].dstAt)
    ensures Inside(h, ToNode(NodeOf(t, rows, key)).at)
  {
    hide LinesOf, Ends, NodeOf, ToNode, Inside, EndsInside, Pin, HoldsEnd;
    HeldEnds(t, rows, key, h);
    PointsLieInHull(t, act, rows, order, key, h);
  }

  /** An unpinned key whose rows all give the same position is drawn there. */
  lemma UnpinnedAtOnePlace(t: Centres, act: string -> Status, rows: seq<EdgeRow>, order: seq<string>, key: string, p: Geo)
    requires key in Ends(LinesOf(t, act, rows, order)) && Pin(t, key).None? && !HasCountryPrefix(key) && p != ORIGIN
    requires forall i :: 0 <= i < |rows| && rows[i].count > 0 ==> (rows[i].srcKey == key ==> rows[i].srcAt == p) && (rows[i].dstKey == key ==> rows[i].dstAt == p)
    ensures ToNode(NodeOf(t, rows, key)).at == p
  {
    hide LinesOf, Ends, NodeOf, ToNode, Inside, Corner, Pin, HasCountryPrefix;
    CornersMeet(p, p);
    forall k | 0 <= k < 4
      ensures Inside(Corner(p, k), ToNode(NodeOf(t, rows, key)).at)
    {
      UnpinnedPoint(t, act, rows, order, key, Corner(p, k));
    }
    CornersMeet(p, ToNode(NodeOf(t, rows, key)).at);
  }

  /** The four half-planes that together hold only p. */
  function Corner(p: Geo, k: nat): HalfPlane {
    if k == 0 then HalfPlane(1.0, 0.0, p.lat)
    else if k == 1 then HalfPlane(-1.0, 0.0, -p.lat)
    else if k == 2 then HalfPlane(0.0, 1.0, p.lon)
    else HalfPlane(0.0, -1.0, -p.lon)
  }

  lemma CornersMeet(p: Geo, q: Geo)
    ensures (forall k :: 0 <= k < 4 ==> Inside(Corner(p, k), q)) <==> q == p
  {
    if forall k :: 0 <= k < 4 ==> Inside(Corner(p, k), q) {
      assert Inside(Corner(p, 0), q) && Inside(Corner(p, 1), q) && Inside(Corner(p, 2), q) && Inside(Corner(p, 3), q);
    }
  }

  lemma PinnedInside(t: Centres, rows: seq<EdgeRow>, key: string, k: nat)
    requires Pin(t, key).Some? && Pin(t, key).value != ORIGIN && k < 4
    ensures EndsInside(t, rows, key, Corner(Pin(t, key).value, k))
  {
    hide GeoMetaFromEdge, Pin, Corner, Inside;
    CornersMeet(Pin(t, key).value, Pin(t, key).value);
    forall i | 0 <= i < |rows|
      ensures (rows[i].srcKey == key ==> SrcMeta(t, rows[i]).at == Pin(t, key).value)
      ensures (rows[i].dstKey == key ==> DstMeta(t, rows[i]).at == Pin(t, key).value)
    {
      if rows[i].srcKey == key {
        PinnedMeta(t, key, rows[i].srcCountry, rows[i].srcAt);
      }
      if rows[i].dstKey == key {
        PinnedMeta(t, key, rows[i].dstCountry, rows[i].dstAt);
      }
    }
  }

  /** The point of a key pinned to a centre other than the origin is exactly that centre. */
  lemma PinnedPoint(t: Centres, act: string -> Status, rows: seq<EdgeRow>, order: seq<string>, key: string)
    requires key in Ends(LinesOf(t, act, rows, order))
    requires Pin(t, key).Some? && Pin(t, key).value != ORIGIN
    ensures ToNode(NodeOf(t, rows, key)).at == Pin(t, key).value
  {
    hide LinesOf, Ends, NodeOf, ToNode, Inside, Corner, EndsInside, Pin;
    var p := Pin(t, key).value;
    forall k | 0 <= k < 4
      ensures Inside(Corner(p, k), ToNode(NodeOf(t, rows, key)).at)
    {
      PinnedInside(t, rows, key, k);
      PointsLieInHull(t, act, rows, order, key, Corner(p, k));
    }
    CornersMeet(p, ToNode(NodeOf(t, rows, key)).at);
  }

  /** If the key has a point on this map, it is at p. */
  ghost predicate DrawnAt(t: Centres, act: string -> Status, rows: seq<EdgeRow>, order: seq<string>, key: string, p: Geo) {
    Enumerates(order, EdgeKeys(t, rows)) && key in Ends(LinesOf(t, act, rows, order)) ==> ToNode(NodeOf(t, rows, key)).at == p
  }

  /** Every country centre of the tables is the origin. */
  ghost predicate CountriesAtOrigin(t: Centres) {
    forall c :: t.country(c).Some? ==> t.country(c).value == ORIGIN
  }

  /** The point of a key all of whose valid ends sit at p. */
  lemma PointAtOnePlace(t: Centres, act: string -> Status, rows: seq<EdgeRow>, order: seq<string>, key: string, p: Geo)
    requires key in Ends(LinesOf(t, act, rows, order))
    requires forall i :: 0 <= i < |rows| && rows[i].srcKey == key && SrcMeta(t, rows[i]).valid ==> SrcMeta(t, rows[i]).at == p
    requires forall i :: 0 <= i < |rows| && rows[i].dstKey == key && DstMeta(t, rows[i]).valid ==> DstMeta(t, rows[i]).at == p
    ensures ToNode(NodeOf(t, rows, key)).at == p
  {
    hide LinesOf, Ends, NodeOf, ToNode, Inside, Corner, SrcMeta, DstMeta;
    CornersMeet(p, p);
    forall k | 0 <= k < 4
      ensures Inside(Corner(p, k), ToNode(NodeOf(t, rows, key)).at)
    {
      PointsLieInHull(t, act, rows, order, key, Corner(p, k));
    }
    CornersMeet(p, ToNode(NodeOf(t, rows, key)).at);
  }

  lemma OriginPinnedPoint(t: Centres, act: string -> Status, rows: seq<EdgeRow>, order: seq<string>, key: string)
    requires Pin(t, key) == Some(ORIGIN) && CountriesAtOrigin(t)
    ensures DrawnAt(t, act, rows, order, key, ORIGIN)
  {
    hide LinesOf, Ends, NodeOf, ToNode, Pin, GeoMetaFromEdge, EdgeKeys, Enumerates;
    if key in Ends(LinesOf(t, act, rows, order)) {
      forall i | 0 <= i < |rows|
        ensures rows[i].srcKey == key && SrcMeta(t, rows[i]).valid ==> SrcMeta(t, rows[i]).at == ORIGIN
        ensures rows[i].dstKey == key && DstMeta(t, rows[i]).valid ==> DstMeta(t, rows[i]).at == ORIGIN
      {
        PinnedMeta(t, key, rows[i].srcCountry, rows[i].srcAt);
        PinnedMeta(t, key, rows[i].dstCountry, rows[i].dstAt);
      }
      PointAtOnePlace(t, act, rows, order, key, ORIGIN);
    }
  }

  /** A row from the key to itself, in the given country. */
  function LoopRow(key: string, country: string): EdgeRow {
    EdgeRow(key, country, ORIGIN, key, country, ORIGIN, 1, 1, 0, 0, 0, "")
  }

  lemma LoopIsDrawn(t: Centres, act: string -> Status, key: string, country: string)
    requires BothValid(t, LoopRow(key, country))
    ensures var rows, order := [LoopRow(key, country)], [JoinKeys(key, key)];
      Enumerates(order, EdgeKeys(t, rows)) && key in Ends(LinesOf(t, act, rows, order))
  {
    hide SrcMeta, DstMeta, JoinKeys, AllowedShare, BlockedShare, Mean, Plus, Wrap64;
    var row, k := LoopRow(key, country), JoinKeys(key, key);
    var rows, order := [row], [k];
    assert rows[..0] == [] && order[..0] == [] && row in rows;
    assert EdgeKeys(t, rows) == {k};
    LoopKeys(t, row);
    var e := EdgeOf(t, rows, k);
    assert rows[|rows| - 1] == row && EdgeKey(row) == k && rows[..|rows| - 1] == [];
    assert EdgeOf(t, [], k) == NO_EDGE;
    assert e == AddEdge(NO_EDGE, row, SrcMeta(t, row), DstMeta(t, row));
    var l := ToLines(act, e)[0];
    assert LinesOf(t, act, rows, order) == LinesOf(t, act, rows, []) + Emitted(act, e);
    assert l in LinesOf(t, act, rows, order) && l.src == key;
  }

  lemma LoopKeys(t: Centres, row: EdgeRow)
    ensures SrcMeta(t, row).key == row.srcKey && DstMeta(t, row).key == row.dstKey
  {
    MetaKeys(t, row);
  }

  /** A key pinned to the origin is drawn elsewhere by a row of a country with another centre. */
  lemma OriginPinMoves(t: Centres, act: string -> Status, key: string, country: string)
    requires Pin(t, key) == Some(ORIGIN) && t.country(country).Some? && t.country(country).value != ORIGIN
    ensures !DrawnAt(t, act, [LoopRow(key, country)], [JoinKeys(key, key)], key, ORIGIN)
  {
    hide LinesOf, Ends, NodeOf, ToNode, Pin, GeoMetaFromEdge, EdgeKeys, Enumerates, JoinKeys;
    PinnedMeta(t, key, country, ORIGIN);
    LoopIsDrawn(t, act, key, country);
    PointAtOnePlace(t, act, [LoopRow(key, country)], [JoinKeys(key, key)], key, t.country(country).value);
  }

  /**
   * Every map draws a pinned key at its centre, if it draws it, exactly when the centre is
   * not the origin, which stands for no position, or all country centres are the origin too.
   */
  lemma PinnedExactly(t: Centres, key: string)
    requires Pin(t, key).Some?
    ensures (forall act, rows, order :: DrawnAt(t, act, rows, order, key, Pin(t, key).value)) <==>
      Pin(t, key).value != ORIGIN || CountriesAtOrigin(t)
  {
    hide DrawnAt, Pin;
    if Pin(t, key).value != ORIGIN {
      forall act, rows, order
        ensures DrawnAt(t, act, rows, order, key, Pin(t, key).value)
      {
        PinnedIsDrawn(t, act, rows, order, key);
      }
    } else if CountriesAtOrigin(t) {
      forall act, rows, order
        ensures DrawnAt(t, act, rows, order, key, Pin(t, key).value)
      {
        OriginPinnedPoint(t, act, rows, order, key);
      }
    } else {
      var country :| t.country(country).Some? && t.country(country).value != ORIGIN;
      OriginPinMoves(t, (action: string) => Unknown, key, country);
    }
  }

  lemma PinnedIsDrawn(t: Centres, act: string -> Status, rows: seq<EdgeRow>, order: seq<string>, key: string)
    requires Pin(t, key).Some? && Pin(t, key).value != ORIGIN
    ensures DrawnAt(t, act, rows, order, key, Pin(t, key).value)
  {
    hide Pin, LinesOf, Ends, NodeOf, ToNode, EdgeKeys, Enumerates;
    if key in Ends(LinesOf(t, act, rows, order)) {
      PinnedPoint(t, act, rows, order, key);
    }
  }

  /** All rows of one edge that count anything have the source s; so for targets. */
  ghost predicate OneSource(t: Centres, rows: seq<EdgeRow>, key: string, s: string) {
    forall i :: 0 <= i < |rows| && Counted(t, rows, key, i) ==> rows[i].srcKey == s
  }

  ghost predicate OneTarget(t: Centres, rows: seq<EdgeRow>, key: string, d: string) {
    forall i :: 0 <= i < |rows| && Counted(t, rows, key, i) ==> rows[i].dstKey == d
  }

  lemma PinnedRows(t: Centres, rows: seq<EdgeRow>, key: string, end: string, k: nat)
    requires Pin(t, end).Some? && Pin(t, end).value != ORIGIN && k < 4
    ensures OneSource(t, rows, key, end) ==> SourcesInside(t, rows, key, Corner(Pin(t, end).value, k))
    ensures OneTarget(t, rows, key, end) ==> TargetsInside(t, rows, key, Corner(Pin(t, end).value, k))
  {
    hide Pin, Corner, Inside, EdgeKey;
    PinnedInside(t, rows, end, k);
  }

  /** A line's pinned ends are exactly their centres, when the rows of its edge share their keys. */
  lemma PinnedLine(t: Centres, act: string -> Status, rows: seq<EdgeRow>, key: string, l: Line, end: string)
    requires l in Emitted(act, EdgeOf(t, rows, key))
    requires Pin(t, end).Some? && Pin(t, end).value != ORIGIN
    ensures OneSource(t, rows, key, end) ==> l.srcAt == Pin(t, end).value
    ensures OneTarget(t, rows, key, end) ==> l.dstAt == Pin(t, end).value
  {
    hide EdgeOf, Emitted, Pin, Corner, Inside, OneSource, OneTarget, SourcesInside, TargetsInside;
    var p := Pin(t, end).value;
    forall k | 0 <= k < 4
      ensures OneSource(t, rows, key, end) ==> Inside(Corner(p, k), l.srcAt)
      ensures OneTarget(t, rows, key, end) ==> Inside(Corner(p, k), l.dstAt)
    {
      PinnedRows(t, rows, key, end, k);
      LineEndsInside(t, act, rows, key, Corner(p, k), l);
    }
    CornersMeet(p, l.srcAt);
    CornersMeet(p, l.dstAt);
  }

  /** Each line comes from one edge, whose keys it bears. */
  lemma {:induction false} EdgeOfLine(t: Centres, act: string -> Status, rows: seq<EdgeRow>, order: seq<string>, l: Line)
    returns (k: string)
    requires l in LinesOf(t, act, rows, order)
    ensures l in Emitted(act, EdgeOf(t, rows, k)) && EdgeOf(t, rows, k).count > 0
    ensures k == JoinKeys(l.src, l.dst)
    ensures NamedBy(EdgeOf(t, rows, k), l.src, l.dst) && l.src in Ends(LinesOf(t, act, rows, order)) && l.dst in Ends(LinesOf(t, act, rows, order))
  {
    hide EdgeOf, Mean, AllowedShare, BlockedShare, StatusOf;
    k := "";
    if order != [] {
      var init := order[..|order| - 1];
      k := order[|order| - 1];
      EndsJoin(LinesOf(t, act, rows, init), Emitted(act, EdgeOf(t, rows, k)));
      if l in LinesOf(t, act, rows, init) {
        k := EdgeOfLine(t, act, rows, init, l);
      } else {
        WeightIsCount(t, rows, k);
        var i := NamingRow(t, rows, k);
      }
    }
  }

  /**
   * A pinned end of any line, its point and its centre coincide exactly, when the rows
   * that count on the line's edge share that end and the centre is not the origin.
   */
  lemma PinnedEndsMeetPoints(t: Centres, act: string -> Status, rows: seq<EdgeRow>, order: seq<string>, l: Line)
    requires l in LinesOf(t, act, rows, order)
    ensures OneSource(t, rows, JoinKeys(l.src, l.dst), l.src) && Pin(t, l.src).Some? && Pin(t, l.src).value != ORIGIN ==>
      l.srcAt == Pin(t, l.src).value == ToNode(NodeOf(t, rows, l.src)).at
    ensures OneTarget(t, rows, JoinKeys(l.src, l.dst), l.dst) && Pin(t, l.dst).Some? && Pin(t, l.dst).value != ORIGIN ==>
      l.dstAt == Pin(t, l.dst).value == ToNode(NodeOf(t, rows, l.dst)).at
  {
    hide EdgeOf, Emitted, LinesOf, Ends, Pin, NodeOf, ToNode, OneSource, OneTarget, JoinKeys;
    var k := EdgeOfLine(t, act, rows, order, l);
    if Pin(t, l.src).Some? && Pin(t, l.src).value != ORIGIN {
      PinnedLine(t, act, rows, k, l, l.src);
      PinnedPoint(t, act, rows, order, l.src);
    }
    if Pin(t, l.dst).Some? && Pin(t, l.dst).value != ORIGIN {
      PinnedLine(t, act, rows, k, l, l.dst);
      PinnedPoint(t, act, rows, order, l.dst);
    }
  }

  /** Where the rows' keys agree on what they count, every pinned end of every line meets its point. */
  lemma AgreeingEndsMeetPoints(t: Centres, act: string -> Status, rows: seq<EdgeRow>, order: seq<string>, l: Line)
    requires l in LinesOf(t, act, rows, order) && KeysAgree(t, RowCount, rows)
    ensures Pin(t, l.src).Some? && Pin(t, l.src).value != ORIGIN ==>
      l.srcAt == Pin(t, l.src).value == ToNode(NodeOf(t, rows, l.src)).at
    ensures Pin(t, l.dst).Some? && Pin(t, l.dst).value != ORIGIN ==>
      l.dstAt == Pin(t, l.dst).value == ToNode(NodeOf(t, rows, l.dst)).at
  {
    hide EdgeOf, Emitted, LinesOf, Ends, Pin, NodeOf, ToNode, BothValid, JoinKeys;
    var k := EdgeOfLine(t, act, rows, order, l);
    KeysAgreeAsNamed(t, RowCount, rows);
    WeightIsCount(t, rows, k);
    forall i | 0 <= i < |rows| && Counted(t, rows, k, i)
      ensures rows[i].srcKey == l.src && rows[i].dstKey == l.dst
    {
      assert Carries(t, RowCount, rows[i]);
    }
    PinnedEndsMeetPoints(t, act, rows, order, l);
  }

  /** No line is of mixed status, and a split line carries only its own kind of count. */
  lemma LinesAreSplit(t: Centres, act: string -> Status, rows: seq<EdgeRow>, order: seq<string>, l: Line)
    requires l in LinesOf(t, act, rows, order) && forall action :: act(action) != Mixed
    ensures l.status != Mixed && (l.allowed == 0 || l.blocked == 0)
    ensures l.allowed > 0 ==> l.status == Allowed
    ensures l.blocked > 0 ==> l.status == Blocked
  {
    hide EdgeOf, LinesOf, Ends, Mean, AllowedShare, BlockedShare;
    var k := EdgeOfLine(t, act, rows, order, l);
  }
}
