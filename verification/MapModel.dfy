/** Edges, nodes and lines of the traffic map. Counters are unbounded, byte sums are 64-bit words. */
module MapModel {
  import opened Common
  import Bits

  /** A position in degrees, or a sum of positions. */
  datatype Geo = Geo(lat: real, lon: real)

  const ORIGIN := Geo(0.0, 0.0)

  /** The tables of continent and country centres. */
  datatype Centres = Centres(continent: string -> Option<Geo>, country: string -> Option<Geo>)

  datatype Status = Allowed | Blocked | Mixed | Unknown

  /** One pre-aggregated edge as the database returns it. */
  datatype EdgeRow = EdgeRow(
    srcKey: string, srcCountry: string, srcAt: Geo,
    dstKey: string, dstCountry: string, dstAt: Geo,
    count: nat, allowed: nat, blocked: nat, sent: U64, recv: U64, lastAction: string)

  /** One end of an edge: its group and its position, when that is known. */
  datatype Meta = Meta(key: string, at: Geo, valid: bool)

  // ---- where an end is ----

  const COUNTRY_PREFIX := "city:country:"

  predicate HiddenKey(key: string) {
    key == "" || key == "city:unknown" || key == "Неизвестно" || key == "unknown"
  }

  predicate HasCountryPrefix(key: string) {
    |COUNTRY_PREFIX| <= |key| && key[..|COUNTRY_PREFIX|] == COUNTRY_PREFIX
  }

  /** Continents and nameless cities of a country sit in the centre of their area. */
  function Placed(t: Centres, key: string, country: string, at: Geo): Geo {
    if t.continent(key).Some? then t.continent(key).value
    else if HasCountryPrefix(key) then
      t.country(key[|COUNTRY_PREFIX|..]).GetOr(t.country(country).GetOr(at))
    else at
  }

  function GeoMetaFromEdge(t: Centres, key: string, country: string, at: Geo): Meta {
    if HiddenKey(key) then Meta(key, ORIGIN, false)
    else
      var placed := Placed(t, key, country, at);
      if placed != ORIGIN then Meta(key, placed, true)
      else if t.country(country).Some? then Meta(key, t.country(country).value, true)
      else Meta(key, placed, false)
  }

  function SrcMeta(t: Centres, row: EdgeRow): Meta {
    GeoMetaFromEdge(t, row.srcKey, row.srcCountry, row.srcAt)
  }

  function DstMeta(t: Centres, row: EdgeRow): Meta {
    GeoMetaFromEdge(t, row.dstKey, row.dstCountry, row.dstAt)
  }

  predicate BothValid(t: Centres, row: EdgeRow) {
    SrcMeta(t, row).valid && DstMeta(t, row).valid
  }

  // ---- accumulators ----

  function Plus(sum: Geo, at: Geo, w: nat): Geo {
    Geo(sum.lat + at.lat * (w as real), sum.lon + at.lon * (w as real))
  }

  function Mean(sum: Geo, w: nat): Geo {
    if w > 0 then Geo(sum.lat / (w as real), sum.lon / (w as real)) else ORIGIN
  }

  datatype EdgeVal = EdgeVal(
    srcKey: string, dstKey: string, srcSum: Geo, dstSum: Geo, coordWeight: nat,
    count: nat, allowed: nat, blocked: nat, sent: U64, recv: U64, lastAction: string)

  const NO_EDGE := EdgeVal("", "", ORIGIN, ORIGIN, 0, 0, 0, 0, 0, 0, "")

  /** The keys are those of the last row added while the count was still zero. */
  function AddEdge(e: EdgeVal, row: EdgeRow, s: Meta, d: Meta): EdgeVal {
    var located := s.valid && d.valid;
    EdgeVal(if e.count == 0 then s.key else e.srcKey, if e.count == 0 then d.key else e.dstKey,
            if located then Plus(e.srcSum, s.at, row.count) else e.srcSum,
            if located then Plus(e.dstSum, d.at, row.count) else e.dstSum,
            if located then e.coordWeight + row.count else e.coordWeight,
            e.count + row.count, e.allowed + row.allowed, e.blocked + row.blocked,
            Wrap64(e.sent + row.sent), Wrap64(e.recv + row.recv),
            if e.count == 0 || e.lastAction == "" then row.lastAction else e.lastAction)
  }

  datatype NodeVal = NodeVal(key: string, sum: Geo, count: nat, coordCount: nat)

  const NO_NODE := NodeVal("", ORIGIN, 0, 0)

  function AddNode(n: NodeVal, m: Meta, w: nat): NodeVal {
    NodeVal(if n.count == 0 then m.key else n.key,
            if m.valid then Plus(n.sum, m.at, w) else n.sum,
            n.count + w, if m.valid then n.coordCount + w else n.coordCount)
  }

  datatype Node = Node(key: string, at: Geo, count: nat)

  function ToNode(n: NodeVal): Node {
    Node(n.key, Mean(n.sum, n.coordCount), n.count)
  }

  // ---- lines ----

  datatype Line = Line(src: string, dst: string, srcAt: Geo, dstAt: Geo, status: Status,
    count: nat, allowed: nat, blocked: nat, sent: U64, recv: U64)

  /** Without counted decisions the last action tells; act classifies actions. */
  function StatusOf(act: string -> Status, e: EdgeVal): Status {
    if e.blocked > 0 && e.allowed == 0 then Blocked
    else if e.allowed > 0 && e.blocked == 0 then Allowed
    else if e.blocked > 0 && e.allowed > 0 then Mixed
    else act(e.lastAction)
  }

  function MakeLine(e: EdgeVal, status: Status, count: nat, allowed: nat, blocked: nat, sent: U64, recv: U64): Line {
    Line(e.srcKey, e.dstKey, Mean(e.srcSum, e.coordWeight), Mean(e.dstSum, e.coordWeight),
         status, count, allowed, blocked, sent, recv)
  }

  /** The allowed part of a byte sum: a product that may wrap, divided with rounding down. */
  function AllowedShare(bytes: U64, allowed: nat, count: nat): U64 {
    if count > 0 then (DivFits(Wrap64(bytes * allowed), count); Wrap64(bytes * allowed) / count) else bytes
  }

  function BlockedShare(bytes: U64, allowed: nat, count: nat): U64 {
    if count > 0 then Wrap64(bytes - AllowedShare(bytes, allowed, count)) else 0
  }

  lemma DivFits(x: U64, d: nat)
    requires d > 0
    ensures 0 <= x / d <= x
  {
    var q := x / d;
    assert x == d * q + x % d;
    Bits.MulMonotone(q, 1, d);
  }

  /** One line per status; an edge with both decisions is split. */
  function ToLines(act: string -> Status, e: EdgeVal): seq<Line> {
    if e.blocked > 0 && e.allowed > 0 then
      [MakeLine(e, Allowed, e.allowed, e.allowed, 0,
                AllowedShare(e.sent, e.allowed, e.count), AllowedShare(e.recv, e.allowed, e.count)),
       MakeLine(e, Blocked, e.blocked, 0, e.blocked,
                BlockedShare(e.sent, e.allowed, e.count), BlockedShare(e.recv, e.allowed, e.count))]
    else [MakeLine(e, StatusOf(act, e), e.count, e.allowed, e.blocked, e.sent, e.recv)]
  }

  // ---- the whole map ----

  function JoinKeys(src: string, dst: string): string {
    src + "→" + dst
  }

  function EdgeKey(row: EdgeRow): string {
    JoinKeys(row.srcKey, row.dstKey)
  }

  /** The rows that make up one edge, added up in order. */
  function EdgeOf(t: Centres, rows: seq<EdgeRow>, key: string): EdgeVal {
    if rows == [] then NO_EDGE
    else
      var row, e := rows[|rows| - 1], EdgeOf(t, rows[..|rows| - 1], key);
      if BothValid(t, row) && EdgeKey(row) == key then AddEdge(e, row, SrcMeta(t, row), DstMeta(t, row)) else e
  }

  function EdgeKeys(t: Centres, rows: seq<EdgeRow>): set<string> {
    set row | row in rows && BothValid(t, row) :: EdgeKey(row)
  }

  /** The ends with one key, added up in order. */
  function NodeOf(t: Centres, rows: seq<EdgeRow>, key: string): NodeVal {
    if rows == [] then NO_NODE
    else NodeStep(t, NodeOf(t, rows[..|rows| - 1], key), rows[|rows| - 1], key)
  }

  function NodeStep(t: Centres, n: NodeVal, row: EdgeRow, key: string): NodeVal {
    var m := if row.srcKey == key then AddNode(n, SrcMeta(t, row), row.count) else n;
    if row.dstKey == key then AddNode(m, DstMeta(t, row), row.count) else m
  }

  /** What one edge adds to the map. */
  function Emitted(act: string -> Status, e: EdgeVal): seq<Line> {
    if e.coordWeight == 0 then [] else ToLines(act, e)
  }

  /** The lines of all edges, the edges taken in the given order. */
  function LinesOf(t: Centres, act: string -> Status, rows: seq<EdgeRow>, order: seq<string>): seq<Line> {
    if order == [] then []
    else LinesOf(t, act, rows, order[..|order| - 1]) + Emitted(act, EdgeOf(t, rows, order[|order| - 1]))
  }

  function Ends(lines: seq<Line>): set<string> {
    (set l | l in lines :: l.src) + (set l | l in lines :: l.dst)
  }

  /** The list names each key of the set once. */
  ghost predicate Enumerates(order: seq<string>, keys: set<string>) {
    (forall k :: k in order <==> k in keys) && forall i, j :: 0 <= i < j < |order| ==> order[i] != order[j]
  }

  function InvalidRows(t: Centres, rows: seq<EdgeRow>): nat {
    |Keep((row: EdgeRow) => !BothValid(t, row), rows)|
  }

  /** The edges among the given keys that have no weight; they are skipped. */
  function Weightless(t: Centres, rows: seq<EdgeRow>, keys: set<string>): set<string> {
    set k | k in keys && EdgeOf(t, rows, k).coordWeight == 0
  }
}
