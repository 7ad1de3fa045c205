/** What single lines and points say: how a mixed edge is divided, which status and action count, and who is never drawn. */
module MapLines {
  import opened Common
  import opened MapModel
  import opened MapBuild
  import opened MapLaws
  import opened MapPairs
  import opened MapPlaces
  import Bits

  // ---- dividing a mixed edge ----

  /** x is the allowed part of the bytes: the product, as a 64-bit word, divided and rounded down. */
  predicate SharedOut(x: U64, bytes: U64, allowed: nat, count: nat) {
    x * count <= Wrap64(bytes * allowed) < (x + 1) * count
  }

  lemma AllowedIsShared(bytes: U64, allowed: nat, count: nat)
    requires count > 0
    ensures SharedOut(AllowedShare(bytes, allowed, count), bytes, allowed, count)
  {
    var w := Wrap64(bytes * allowed);
    hide Wrap64;
    assert w == count * (w / count) + w % count;
  }

  /** A part of no more than all events is no more than all bytes. */
  lemma ShareIsPart(x: nat, bytes: nat, allowed: nat, count: nat)
    requires 0 < count && allowed <= count && x * count <= bytes * allowed
    ensures x <= bytes
  {
    Bits.MulMonotone(bytes, allowed, count);
    if x > bytes {
      Bits.MulMonotone(count, bytes + 1, x);
      assert false;
    }
  }

  lemma RestIsShared(x: U64, bytes: U64, allowed: nat, count: nat)
    requires count > 0 && allowed <= count && bytes * allowed < TWO64 && SharedOut(x, bytes, allowed, count)
    ensures x * count <= bytes * allowed < (x + 1) * count && x <= bytes && Wrap64(bytes - x) == bytes - x
  {
    ShareIsPart(x, bytes, allowed, count);
  }

  /** The two lines of an edge that counted both decisions: the allowed one, then the blocked one. */
  ghost predicate Divided(e: EdgeVal, a: Line, b: Line) {
    a.status == Allowed && a.count == a.allowed == e.allowed && a.blocked == 0 &&
    b.status == Blocked && b.count == b.blocked == e.blocked && b.allowed == 0 &&
    SharedOut(a.sent, e.sent, e.allowed, e.count) && b.sent == Wrap64(e.sent - a.sent) &&
    SharedOut(a.recv, e.recv, e.allowed, e.count) && b.recv == Wrap64(e.recv - a.recv)
  }

  /**
   * An edge with both decisions yields two lines. The allowed one has the allowed events
   * and the share of the bytes that goes with them, rounded down; the blocked one has the
   * blocked events and the rest of the bytes. While the products fit, these are the plain
   * proportion and the plain difference.
   */
  lemma MixedEdgeIsDivided(act: string -> Status, e: EdgeVal)
    requires e.coordWeight > 0 && e.allowed > 0 && e.blocked > 0 && e.count > 0
    ensures |Emitted(act, e)| == 2 && Divided(e, Emitted(act, e)[0], Emitted(act, e)[1])
    ensures var a, b := Emitted(act, e)[0], Emitted(act, e)[1];
      e.allowed <= e.count && e.sent * e.allowed < TWO64 ==>
        a.sent * e.count <= e.sent * e.allowed < (a.sent + 1) * e.count && b.sent == e.sent - a.sent
    ensures var a, b := Emitted(act, e)[0], Emitted(act, e)[1];
      e.allowed <= e.count && e.recv * e.allowed < TWO64 ==>
        a.recv * e.count <= e.recv * e.allowed < (a.recv + 1) * e.count && b.recv == e.recv - a.recv
  {
    hide AllowedShare, Mean, SharedOut, Wrap64;
    AllowedIsShared(e.sent, e.allowed, e.count);
    AllowedIsShared(e.recv, e.allowed, e.count);
    if e.allowed <= e.count && e.sent * e.allowed < TWO64 {
      RestIsShared(AllowedShare(e.sent, e.allowed, e.count), e.sent, e.allowed, e.count);
    }
    if e.allowed <= e.count && e.recv * e.allowed < TWO64 {
      RestIsShared(AllowedShare(e.recv, e.allowed, e.count), e.recv, e.allowed, e.count);
    }
  }

  /** A mixed edge of the map has counted events, so it is divided as above. */
  lemma MixedEdgesAreDivided(t: Centres, act: string -> Status, rows: seq<EdgeRow>, key: string)
    requires var e := EdgeOf(t, rows, key); e.coordWeight > 0 && e.allowed > 0 && e.blocked > 0
    ensures var e := EdgeOf(t, rows, key);
      |Emitted(act, e)| == 2 && Divided(e, Emitted(act, e)[0], Emitted(act, e)[1])
  {
    hide EdgeOf, Emitted, Divided;
    WeightIsCount(t, rows, key);
    MixedEdgeIsDivided(act, EdgeOf(t, rows, key));
  }

  /** Any other edge yields one line with all it has; without decisions the last action tells its status. */
  lemma OtherEdgeIsWhole(act: string -> Status, e: EdgeVal)
    requires e.coordWeight > 0 && (e.allowed == 0 || e.blocked == 0)
    ensures |Emitted(act, e)| == 1
    ensures var l := Emitted(act, e)[0];
      l.count == e.count && l.allowed == e.allowed && l.blocked == e.blocked && l.sent == e.sent && l.recv == e.recv &&
      l.status == if e.blocked > 0 then Blocked else if e.allowed > 0 then Allowed else act(e.lastAction)
  {
    hide AllowedShare, BlockedShare, Mean;
  }

  // ---- the last action ----

  /** A located row of the edge from its first counted row j on. */
  predicate FromFirst(t: Centres, rows: seq<EdgeRow>, key: string, j: nat, i: nat) {
    j <= i < |rows| && BothValid(t, rows[i]) && EdgeKey(rows[i]) == key
  }

  /** The first action that is not empty among the edge's rows from j on, or the empty one. */
  ghost predicate FirstAction(t: Centres, rows: seq<EdgeRow>, key: string, j: nat, action: string) {
    if action == "" then forall i: nat :: FromFirst(t, rows, key, j, i) ==> rows[i].lastAction == ""
    else exists i: nat :: FirstActionAt(t, rows, key, j, action, i)
  }

  ghost predicate FirstActionAt(t: Centres, rows: seq<EdgeRow>, key: string, j: nat, action: string, i: nat) {
    FromFirst(t, rows, key, j, i) && rows[i].lastAction == action &&
    forall h: nat :: h < i && FromFirst(t, rows, key, j, h) ==> rows[h].lastAction == ""
  }

  lemma ActionStep(t: Centres, rows: seq<EdgeRow>, key: string, j: nat, action: string)
    requires rows != [] && j < |rows| - 1 && FirstAction(t, rows[..|rows| - 1], key, j, action)
    ensures var last := rows[|rows| - 1];
      FirstAction(t, rows, key, j, if FromFirst(t, rows, key, j, |rows| - 1) && action == "" then last.lastAction else action)
  {
    hide BothValid, EdgeKey;
    var n, init := |rows| - 1, rows[..|rows| - 1];
    forall i: nat | i < n
      ensures init[i] == rows[i] && (FromFirst(t, init, key, j, i) <==> FromFirst(t, rows, key, j, i))
    {
    }
    forall i: nat | i >= n
      ensures !FromFirst(t, init, key, j, i) && (i > n ==> !FromFirst(t, rows, key, j, i))
    {
    }
    hide FromFirst;
    if action != "" {
      var i: nat :| FirstActionAt(t, init, key, j, action, i);
      assert FirstActionAt(t, rows, key, j, action, i);
    } else if FromFirst(t, rows, key, j, n) && rows[n].lastAction != "" {
      assert FirstActionAt(t, rows, key, j, rows[n].lastAction, n);
    }
  }

  /** What one row does to the last action of its edge. */
  lemma ActionAdded(t: Centres, rows: seq<EdgeRow>, key: string)
    requires rows != []
    ensures var e, init, last := EdgeOf(t, rows, key), EdgeOf(t, rows[..|rows| - 1], key), rows[|rows| - 1];
      if BothValid(t, last) && EdgeKey(last) == key
      then e.count == init.count + last.count &&
        e.lastAction == (if init.count == 0 || init.lastAction == "" then last.lastAction else init.lastAction)
      else e == init
  {
    hide Plus, SrcMeta, DstMeta, Wrap64, BothValid, EdgeKey;
  }

  /** An edge's action is the first that is not empty among its rows from the first one that counts on. */
  lemma {:induction false} ActionExactly(t: Centres, rows: seq<EdgeRow>, key: string, j: nat)
    requires FirstCounted(t, rows, key, j)
    ensures EdgeOf(t, rows, key).count > 0 && FirstAction(t, rows, key, j, EdgeOf(t, rows, key).lastAction)
  {
    hide EdgeOf, BothValid, EdgeKey, FirstAction;
    var n, init := |rows| - 1, rows[..|rows| - 1];
    assert forall i :: 0 <= i < n ==> init[i] == rows[i];
    ActionAdded(t, rows, key);
    if j < n {
      ActionExactly(t, init, key, j);
      ActionStep(t, rows, key, j, EdgeOf(t, init, key).lastAction);
    } else {
      WeightIsCount(t, init, key);
      WeightlessMeansUncounted(t, init, key);
      OnlyAction(t, rows, key, j);
    }
  }

  lemma OnlyAction(t: Centres, rows: seq<EdgeRow>, key: string, j: nat)
    requires FirstCounted(t, rows, key, j) && j == |rows| - 1
    ensures FirstAction(t, rows, key, j, rows[j].lastAction)
  {
    hide BothValid, EdgeKey;
    assert FromFirst(t, rows, key, j, j);
    if rows[j].lastAction != "" {
      assert FirstActionAt(t, rows, key, j, rows[j].lastAction, j);
    }
  }

  // ---- weighted means ----

  /** Latitude or longitude. */
  function Coordinate(p: Geo, north: bool): real {
    if north then p.lat else p.lon
  }

  function Weighted(p: Geo, w: nat, north: bool): real {
    Coordinate(p, north) * (w as real)
  }

  /** The sum of a coordinate over the valid ends with this key, each as often as it counts. */
  function EndsSum(t: Centres, rows: seq<EdgeRow>, key: string, north: bool): real {
    if rows == [] then 0.0
    else
      var row := rows[|rows| - 1];
      EndsSum(t, rows[..|rows| - 1], key, north) +
      (if row.srcKey == key && SrcMeta(t, row).valid then Weighted(SrcMeta(t, row).at, row.count, north) else 0.0) +
      (if row.dstKey == key && DstMeta(t, row).valid then Weighted(DstMeta(t, row).at, row.count, north) else 0.0)
  }

  lemma PlusIs(sum: Geo, p: Geo, w: nat)
    ensures Plus(sum, p, w) == Geo(sum.lat + Weighted(p, w, true), sum.lon + Weighted(p, w, false))
  {
  }

  lemma {:induction false} NodeSums(t: Centres, rows: seq<EdgeRow>, key: string)
    ensures NodeOf(t, rows, key).sum == Geo(EndsSum(t, rows, key, true), EndsSum(t, rows, key, false))
  {
    hide SrcMeta, DstMeta, Plus, Weighted;
    if rows != [] {
      var init, row := rows[..|rows| - 1], rows[|rows| - 1];
      NodeSums(t, init, key);
      var n := NodeOf(t, init, key);
      var m := if row.srcKey == key then AddNode(n, SrcMeta(t, row), row.count) else n;
      PlusIs(n.sum, SrcMeta(t, row).at, row.count);
      PlusIs(m.sum, DstMeta(t, row).at, row.count);
      assert NodeOf(t, rows, key) == NodeStep(t, n, row, key);
    }
  }

  /** A point of the map is the mean of the valid positions of its ends, each weighted with its events. */
  lemma PointsAreMeans(t: Centres, act: string -> Status, rows: seq<EdgeRow>, order: seq<string>, key: string)
    requires key in Ends(LinesOf(t, act, rows, order))
    ensures var w, p := EndsCount(t, rows, key, true), ToNode(NodeOf(t, rows, key)).at;
      w > 0 && p == Geo(EndsSum(t, rows, key, true) / (w as real), EndsSum(t, rows, key, false) / (w as real))
  {
    hide NodeOf, LinesOf, Ends, EndsSum, EndsCount;
    PointsHaveWeight(t, act, rows, order, key);
    NodeAddsUp(t, rows, key);
    NodeSums(t, rows, key);
  }

  /** The sum of a coordinate of sources, or of targets, over the rows of an edge. */
  function SideSum(t: Centres, rows: seq<EdgeRow>, key: string, source: bool, north: bool): real {
    if rows == [] then 0.0
    else
      var row := rows[|rows| - 1];
      SideSum(t, rows[..|rows| - 1], key, source, north) +
      (if BothValid(t, row) && EdgeKey(row) == key
       then Weighted(if source then SrcMeta(t, row).at else DstMeta(t, row).at, row.count, north) else 0.0)
  }

  lemma {:induction false} EdgeSums(t: Centres, rows: seq<EdgeRow>, key: string)
    ensures EdgeOf(t, rows, key).srcSum == Geo(SideSum(t, rows, key, true, true), SideSum(t, rows, key, true, false))
    ensures EdgeOf(t, rows, key).dstSum == Geo(SideSum(t, rows, key, false, true), SideSum(t, rows, key, false, false))
  {
    hide SrcMeta, DstMeta, EdgeKey, Wrap64, Plus, Weighted;
    if rows != [] {
      var init, row := rows[..|rows| - 1], rows[|rows| - 1];
      EdgeSums(t, init, key);
      var e := EdgeOf(t, init, key);
      PlusIs(e.srcSum, SrcMeta(t, row).at, row.count);
      PlusIs(e.dstSum, DstMeta(t, row).at, row.count);
    }
  }

  /** The ends of an edge's lines are the means of its sources and of its targets, each row weighted with its events. */
  lemma LineEndsAreMeans(t: Centres, act: string -> Status, rows: seq<EdgeRow>, key: string, l: Line)
    requires l in Emitted(act, EdgeOf(t, rows, key))
    ensures var w := RowsSum(t, RowCount, rows, {key});
      w > 0 &&
      l.srcAt == Geo(SideSum(t, rows, key, true, true) / (w as real), SideSum(t, rows, key, true, false) / (w as real)) &&
      l.dstAt == Geo(SideSum(t, rows, key, false, true) / (w as real), SideSum(t, rows, key, false, false) / (w as real))
  {
    hide EdgeOf, SideSum, RowsSum, AllowedShare, BlockedShare, StatusOf;
    EdgeAddsUp(t, rows, key);
    EdgeSums(t, rows, key);
  }

  // ---- points ----

  /** A point of the map bears its key and counts all events at the ends with that key. */
  lemma PointsCountEnds(t: Centres, act: string -> Status, rows: seq<EdgeRow>, order: seq<string>, key: string)
    requires key in Ends(LinesOf(t, act, rows, order))
    ensures var p := ToNode(NodeOf(t, rows, key)); p.key == key && p.count == EndsCount(t, rows, key, false)
  {
    hide NodeOf, LinesOf, Ends, Mean;
    PointsHaveWeight(t, act, rows, order, key);
    NodeAddsUp(t, rows, key);
  }

  /** Places without a name are never drawn: not as a point, not as the end of a line. */
  lemma UnknownIsNeverDrawn(t: Centres, act: string -> Status, rows: seq<EdgeRow>, order: seq<string>, key: string)
    requires key in {"", "city:unknown", "Неизвестно", "unknown"}
    ensures key !in Ends(LinesOf(t, act, rows, order))
  {
    hide LinesOf, Ends;
    if key in Ends(LinesOf(t, act, rows, order)) {
      var i := RowOfEnd(t, act, rows, order, key);
      NotLocated(t, rows[i], key);
    }
  }

  /** A row with such an end is skipped. */
  lemma NotLocated(t: Centres, row: EdgeRow, key: string)
    requires key in {"", "city:unknown", "Неизвестно", "unknown"} && (row.srcKey == key || row.dstKey == key)
    ensures !BothValid(t, row)
  {
  }
}
