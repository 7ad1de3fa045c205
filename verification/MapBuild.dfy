/** The aggregators as objects, and the loops that build the map with them. */
module MapBuild {
  import opened Common
  import opened Lists
  import opened MapModel

  class EdgeAgg {
    var srcKey: string
    var dstKey: string
    var srcSum: Geo
    var dstSum: Geo
    var coordWeight: nat
    var count: nat
    var allowedCount: nat
    var blockedCount: nat
    var bytesSent: U64
    var bytesRecv: U64
    var lastAction: string

    constructor ()
      ensures Value() == NO_EDGE
    {
      srcKey, dstKey, lastAction := "", "", "";
      srcSum, dstSum := ORIGIN, ORIGIN;
      coordWeight, count, allowedCount, blockedCount, bytesSent, bytesRecv := 0, 0, 0, 0, 0, 0;
    }

    function Value(): EdgeVal
      reads this
    {
      EdgeVal(srcKey, dstKey, srcSum, dstSum, coordWeight,
              count, allowedCount, blockedCount, bytesSent, bytesRecv, lastAction)
    }

    method Add(row: EdgeRow, src: Meta, dst: Meta)
      modifies this
      ensures Value() == AddEdge(old(Value()), row, src, dst)
    {
      hide Wrap64, Plus;
      if count == 0 {
        srcKey := src.key;
        dstKey := dst.key;
        lastAction := row.lastAction;
      } else {
        if lastAction == "" {
          lastAction := row.lastAction;
        }
      }
      count := count + row.count;
      allowedCount := allowedCount + row.allowed;
      blockedCount := blockedCount + row.blocked;
      bytesSent := Wrap64(bytesSent + row.sent);
      bytesRecv := Wrap64(bytesRecv + row.recv);
      if src.valid && dst.valid {
        srcSum := Plus(srcSum, src.at, row.count);
        dstSum := Plus(dstSum, dst.at, row.count);
        coordWeight := coordWeight + row.count;
      }
    }
  }

  class NodeAgg {
    var key: string
    var sum: Geo
    var count: nat
    var coordCount: nat

    constructor ()
      ensures Value() == NO_NODE
    {
      key, sum, count, coordCount := "", ORIGIN, 0, 0;
    }

    function Value(): NodeVal
      reads this
    {
      NodeVal(key, sum, count, coordCount)
    }

    method Add(m: Meta, eventCount: nat)
      modifies this
      ensures Value() == AddNode(old(Value()), m, eventCount)
    {
      hide Plus;
      if count == 0 {
        key := m.key;
      }
      if m.valid {
        sum := Plus(sum, m.at, eventCount);
        coordCount := coordCount + eventCount;
      }
      count := count + eventCount;
    }
  }

  lemma OneMoreRow<T>(rows: seq<T>, i: nat)
    requires i < |rows|
    ensures rows[..i + 1] == rows[..i] + [rows[i]]
    ensures rows[..i + 1][..i] == rows[..i] && rows[..i + 1][i] == rows[i]
  {
  }

  /** Distinct keys hold distinct objects. */
  ghost predicate Separate<T>(m: map<string, T>) {
    forall k, l :: k in m && l in m && k != l ==> m[k] != m[l]
  }

  lemma EdgeOfNext(t: Centres, rows: seq<EdgeRow>, i: nat, key: string)
    requires i < |rows|
    ensures EdgeOf(t, rows[..i + 1], key) ==
      if BothValid(t, rows[i]) && EdgeKey(rows[i]) == key
      then AddEdge(EdgeOf(t, rows[..i], key), rows[i], SrcMeta(t, rows[i]), DstMeta(t, rows[i]))
      else EdgeOf(t, rows[..i], key)
  {
    hide AddEdge, BothValid, SrcMeta, DstMeta;
    OneMoreRow(rows, i);
  }

  lemma EdgeKeysNext(t: Centres, rows: seq<EdgeRow>, i: nat)
    requires i < |rows|
    ensures EdgeKeys(t, rows[..i + 1]) == EdgeKeys(t, rows[..i]) + (if BothValid(t, rows[i]) then {EdgeKey(rows[i])} else {})
  {
    hide BothValid, EdgeKey;
    OneMoreRow(rows, i);
    var before, after := EdgeKeys(t, rows[..i]), EdgeKeys(t, rows[..i + 1]);
    forall row | row in rows[..i + 1] && BothValid(t, row)
      ensures EdgeKey(row) in before + (if BothValid(t, rows[i]) then {EdgeKey(rows[i])} else {})
    {
    }
    forall row | row in rows[..i] && BothValid(t, row)
      ensures EdgeKey(row) in after
    {
    }
    if BothValid(t, rows[i]) {
      assert rows[i] in rows[..i + 1];
    }
  }

  /** Edges without rows are empty. */
  lemma {:induction false} NoRowsNoEdge(t: Centres, rows: seq<EdgeRow>, key: string)
    requires key !in EdgeKeys(t, rows)
    ensures EdgeOf(t, rows, key) == NO_EDGE
  {
    hide AddEdge;
    if rows != [] {
      var init, last := rows[..|rows| - 1], rows[|rows| - 1];
      assert last in rows;
      assert forall row :: row in init ==> row in rows;
      NoRowsNoEdge(t, init, key);
    }
  }

  lemma InvalidNext(t: Centres, rows: seq<EdgeRow>, i: nat)
    requires i < |rows|
    ensures InvalidRows(t, rows[..i + 1]) == InvalidRows(t, rows[..i]) + if BothValid(t, rows[i]) then 0 else 1
  {
    hide BothValid;
    OneMoreRow(rows, i);
    var p := (row: EdgeRow) => !BothValid(t, row);
    KeepAppend(p, rows[..i], [rows[i]]);
    assert [rows[i]][1..] == [];
  }

  /** The first loop: rows with two valid ends are added to their edges. */
  method CollectEdges(t: Centres, rows: seq<EdgeRow>) returns (edges: map<string, EdgeAgg>, skipped: nat)
    ensures edges.Keys == EdgeKeys(t, rows)
    ensures forall k :: k in edges ==> fresh(edges[k]) && edges[k].Value() == EdgeOf(t, rows, k)
    ensures skipped == InvalidRows(t, rows)
  {
    hide AddEdge, EdgeOf, EdgeKeys, InvalidRows, SrcMeta, DstMeta, EdgeKey;
    edges, skipped := map[], 0;
    EmptyRows(t);
    var i := 0;
    assert rows[..0] == [];
    while i < |rows|
      invariant i <= |rows|
      invariant edges.Keys == EdgeKeys(t, rows[..i])
      invariant forall k :: k in edges ==> fresh(edges[k]) && edges[k].Value() == EdgeOf(t, rows[..i], k)
      invariant Separate(edges)
      invariant skipped == InvalidRows(t, rows[..i])
    {
      var row := rows[i];
      EdgeKeysNext(t, rows, i);
      InvalidNext(t, rows, i);
      forall k
        ensures EdgeOf(t, rows[..i + 1], k) ==
          if BothValid(t, row) && EdgeKey(row) == k
          then AddEdge(EdgeOf(t, rows[..i], k), row, SrcMeta(t, row), DstMeta(t, row))
          else EdgeOf(t, rows[..i], k)
      {
        EdgeOfNext(t, rows, i, k);
      }
      var src, dst := SrcMeta(t, row), DstMeta(t, row);
      if !src.valid || !dst.valid {
        skipped := skipped + 1;
      } else {
        var key := EdgeKey(row);
        if key !in edges {
          NoRowsNoEdge(t, rows[..i], key);
          var edge := new EdgeAgg();
          edges := edges[key := edge];
        }
        edges[key].Add(row, src, dst);
      }
      i := i + 1;
    }
    assert rows[..i] == rows;
  }

  lemma EmptyRows(t: Centres)
    ensures EdgeKeys(t, []) == {} && InvalidRows(t, []) == 0
  {
  }

  // ---- the second loop ----

  lemma EndsAppend(lines: seq<Line>, l: Line)
    ensures Ends(lines + [l]) == Ends(lines) + {l.src, l.dst}
  {
    forall m | m in lines + [l]
      ensures m in lines || m == l
    {
    }
    assert l in lines + [l];
    assert forall m :: m in lines ==> m in lines + [l];
  }

  /** Adds the lines of one edge and marks their ends. */
  method AppendLines(lines: seq<Line>, active: set<string>, more: seq<Line>) returns (all: seq<Line>, ends: set<string>)
    requires active == Ends(lines)
    ensures all == lines + more && ends == Ends(all)
  {
    hide Ends;
    all, ends := lines, active;
    var j := 0;
    while j < |more|
      invariant j <= |more| && all == lines + more[..j] && ends == Ends(all)
    {
      EndsAppend(all, more[j]);
      all := all + [more[j]];
      ends := ends + {more[j].src} + {more[j].dst};
      j := j + 1;
    }
  }

  lemma EnumeratesNext(order: seq<string>, keys: set<string>, k: string)
    requires Enumerates(order, keys) && k !in keys
    ensures Enumerates(order + [k], keys + {k})
  {
    var longer := order + [k];
    forall x
      ensures x in longer <==> x in keys + {k}
    {
      assert longer[|order|] == k;
      assert x in order ==> x in longer;
    }
  }

  lemma LinesOfNext(t: Centres, act: string -> Status, rows: seq<EdgeRow>, order: seq<string>, k: string)
    ensures LinesOf(t, act, rows, order + [k]) == LinesOf(t, act, rows, order) + Emitted(act, EdgeOf(t, rows, k))
  {
    assert (order + [k])[..|order|] == order;
  }

  lemma WeightlessNext(t: Centres, rows: seq<EdgeRow>, keys: set<string>, k: string)
    requires k !in keys
    ensures |Weightless(t, rows, keys + {k})| ==
      |Weightless(t, rows, keys)| + if EdgeOf(t, rows, k).coordWeight == 0 then 1 else 0
  {
    hide EdgeOf;
    assert Weightless(t, rows, keys + {k}) ==
      Weightless(t, rows, keys) + if EdgeOf(t, rows, k).coordWeight == 0 then {k} else {};
  }

  /** The second loop: edges with weight become lines, in whatever order the map yields them. */
  method EmitLines(t: Centres, act: string -> Status, ghost rows: seq<EdgeRow>, edges: map<string, EdgeAgg>)
    returns (lines: seq<Line>, active: set<string>, skipped: nat, ghost order: seq<string>)
    requires forall k :: k in edges ==> edges[k].Value() == EdgeOf(t, rows, k)
    ensures Enumerates(order, edges.Keys)
    ensures lines == LinesOf(t, act, rows, order) && active == Ends(lines)
    ensures skipped == |Weightless(t, rows, edges.Keys)|
  {
    hide EdgeOf, LinesOf, Weightless, Enumerates, Ends, ToLines;
    lines, active, skipped, order := [], {}, 0, [];
    NothingEmitted(t, act, rows);
    var todo := edges.Keys;
    ghost var done: set<string> := {};
    while todo != {}
      invariant todo <= edges.Keys && done == edges.Keys - todo
      invariant Enumerates(order, done)
      invariant lines == LinesOf(t, act, rows, order) && active == Ends(lines)
      invariant skipped == |Weightless(t, rows, done)|
    {
      var k :| k in todo;
      var edge := edges[k];
      assert edge.Value() == EdgeOf(t, rows, k);
      EnumeratesNext(order, done, k);
      LinesOfNext(t, act, rows, order, k);
      WeightlessNext(t, rows, done, k);
      if edge.coordWeight == 0 {
        skipped := skipped + 1;
      } else {
        lines, active := AppendLines(lines, active, ToLines(act, edge.Value()));
      }
      order := order + [k];
      todo := todo - {k};
      done := done + {k};
    }
    assert done == edges.Keys;
  }

  lemma NothingEmitted(t: Centres, act: string -> Status, rows: seq<EdgeRow>)
    ensures LinesOf(t, act, rows, []) == [] && Ends([]) == {} && Enumerates([], {}) && Weightless(t, rows, {}) == {}
  {
  }

  // ---- the third loop ----

  /** What is collected for a key so far. */
  ghost function Collected(nodes: map<string, NodeAgg>, key: string): NodeVal
    reads set k | k in nodes :: nodes[k]
  {
    if key in nodes then nodes[key].Value() else NO_NODE
  }

  /** Adds one end to its node when its key is active. */
  method AddEnd(nodes: map<string, NodeAgg>, active: set<string>, m: Meta, w: nat) returns (after: map<string, NodeAgg>)
    requires Separate(nodes)
    modifies set k | k in nodes :: nodes[k]
    ensures Separate(after)
    ensures after.Keys == nodes.Keys + if m.key in active then {m.key} else {}
    ensures forall k :: k in after ==> (k in nodes && after[k] == nodes[k]) || fresh(after[k])
    ensures forall k :: k in active ==>
      Collected(after, k) == if k == m.key then AddNode(old(Collected(nodes, k)), m, w) else old(Collected(nodes, k))
  {
    hide AddNode;
    after := nodes;
    if m.key in active {
      if m.key !in after {
        var node := new NodeAgg();
        after := after[m.key := node];
      }
      after[m.key].Add(m, w);
    }
  }

  lemma MetaKeys(t: Centres, row: EdgeRow)
    ensures SrcMeta(t, row).key == row.srcKey && DstMeta(t, row).key == row.dstKey
  {
  }

  /** Adds both ends of a row. */
  method AddEnds(t: Centres, nodes: map<string, NodeAgg>, active: set<string>, row: EdgeRow) returns (after: map<string, NodeAgg>)
    requires Separate(nodes)
    modifies set k | k in nodes :: nodes[k]
    ensures Separate(after)
    ensures after.Keys == nodes.Keys + active * {row.srcKey, row.dstKey}
    ensures forall k :: k in after ==> (k in nodes && after[k] == nodes[k]) || fresh(after[k])
    ensures forall k :: k in active ==> Collected(after, k) == NodeStep(t, old(Collected(nodes, k)), row, k)
  {
    hide AddNode, Collected, Separate, SrcMeta, DstMeta;
    MetaKeys(t, row);
    var src, dst := SrcMeta(t, row), DstMeta(t, row);
    var between := AddEnd(nodes, active, src, row.count);
    after := AddEnd(between, active, dst, row.count);
  }

  function RowKeys(rows: seq<EdgeRow>): set<string> {
    (set row | row in rows :: row.srcKey) + (set row | row in rows :: row.dstKey)
  }

  lemma RowKeysNext(rows: seq<EdgeRow>, i: nat)
    requires i < |rows|
    ensures RowKeys(rows[..i + 1]) == RowKeys(rows[..i]) + {rows[i].srcKey} + {rows[i].dstKey}
  {
    OneMoreRow(rows, i);
    assert rows[i] in rows[..i + 1];
    assert forall row :: row in rows[..i + 1] <==> row in rows[..i] || row == rows[i];
  }

  lemma NodeOfNext(t: Centres, rows: seq<EdgeRow>, i: nat, key: string)
    requires i < |rows|
    ensures NodeOf(t, rows[..i + 1], key) == NodeStep(t, NodeOf(t, rows[..i], key), rows[i], key)
  {
    hide NodeStep;
    OneMoreRow(rows, i);
  }

  /** The third loop: all ends with an active key are added to their nodes. */
  method CollectNodes(t: Centres, rows: seq<EdgeRow>, active: set<string>) returns (nodes: map<string, NodeAgg>)
    ensures nodes.Keys == active * RowKeys(rows)
    ensures forall k :: k in nodes ==> fresh(nodes[k]) && nodes[k].Value() == NodeOf(t, rows, k)
  {
    hide NodeStep, NodeOf, RowKeys, Collected;
    nodes := map[];
    NoRowsNoNodes(t);
    NothingCollected();
    var i := 0;
    assert rows[..0] == [];
    while i < |rows|
      invariant i <= |rows|
      invariant nodes.Keys == active * RowKeys(rows[..i])
      invariant forall k :: k in nodes ==> fresh(nodes[k])
      invariant Separate(nodes)
      invariant forall k :: k in active ==> Collected(nodes, k) == NodeOf(t, rows[..i], k)
    {
      var row := rows[i];
      RowKeysNext(rows, i);
      forall k
        ensures NodeOf(t, rows[..i + 1], k) == NodeStep(t, NodeOf(t, rows[..i], k), row, k)
      {
        NodeOfNext(t, rows, i, k);
      }
      nodes := AddEnds(t, nodes, active, row);
      i := i + 1;
    }
    assert rows[..i] == rows;
    CollectedValues(nodes);
  }

  lemma CollectedValues(nodes: map<string, NodeAgg>)
    ensures forall k :: k in nodes ==> nodes[k].Value() == Collected(nodes, k)
  {
  }

  lemma NothingCollected()
    ensures forall k :: Collected(map[], k) == NO_NODE
  {
  }

  lemma NoRowsNoNodes(t: Centres)
    ensures RowKeys([]) == {} && forall k :: NodeOf(t, [], k) == NO_NODE
  {
  }

  // ---- every end of a line is an end of a row ----

  /** The first row with a count gave the edge its keys. */
  ghost predicate Names(t: Centres, rows: seq<EdgeRow>, key: string, e: EdgeVal, i: nat) {
    i < |rows| && BothValid(t, rows[i]) && EdgeKey(rows[i]) == key && rows[i].count > 0 &&
    rows[i].srcKey == e.srcKey && rows[i].dstKey == e.dstKey
  }

  lemma {:induction false} NamingRow(t: Centres, rows: seq<EdgeRow>, key: string) returns (i: nat)
    requires EdgeOf(t, rows, key).count > 0
    ensures Names(t, rows, key, EdgeOf(t, rows, key), i)
  {
    hide Plus, Wrap64, BothValid;
    var n := |rows| - 1;
    if EdgeOf(t, rows[..n], key).count > 0 {
      i := NamingRow(t, rows[..n], key);
      assert rows[..n][i] == rows[i];
    } else {
      i := n;
    }
  }

  /** All rows of an edge are located, so its weight is its count. */
  lemma {:induction false} WeightIsCount(t: Centres, rows: seq<EdgeRow>, key: string)
    ensures EdgeOf(t, rows, key).coordWeight == EdgeOf(t, rows, key).count
  {
    hide Plus, Wrap64, SrcMeta, DstMeta;
    if rows != [] {
      WeightIsCount(t, rows[..|rows| - 1], key);
    }
  }

  lemma {:induction false} EndsAreRowKeys(t: Centres, act: string -> Status, rows: seq<EdgeRow>, order: seq<string>)
    ensures Ends(LinesOf(t, act, rows, order)) <= RowKeys(rows)
  {
    if order != [] {
      hide EdgeOf, Names, BothValid;
      var k := order[|order| - 1];
      var e := EdgeOf(t, rows, k);
      EndsAreRowKeys(t, act, rows, order[..|order| - 1]);
      WeightIsCount(t, rows, k);
      if e.coordWeight > 0 {
        var i := NamingRow(t, rows, k);
        NamesAreKeys(t, rows, k, e, i);
      }
      EmittedEnds(act, e);
      EndsJoin(LinesOf(t, act, rows, order[..|order| - 1]), Emitted(act, e));
    }
  }

  lemma NamesAreKeys(t: Centres, rows: seq<EdgeRow>, key: string, e: EdgeVal, i: nat)
    requires Names(t, rows, key, e, i)
    ensures e.srcKey in RowKeys(rows) && e.dstKey in RowKeys(rows)
  {
    assert rows[i] in rows;
  }

  lemma EmittedEnds(act: string -> Status, e: EdgeVal)
    ensures Ends(Emitted(act, e)) == if e.coordWeight == 0 then {} else {e.srcKey, e.dstKey}
  {
    hide AllowedShare, BlockedShare, StatusOf, Mean;
    var lines := Emitted(act, e);
    if e.coordWeight > 0 {
      assert lines[0] in lines;
      forall l | l in lines
        ensures l.src == e.srcKey && l.dst == e.dstKey
      {
      }
    }
  }

  lemma EndsJoin(a: seq<Line>, b: seq<Line>)
    ensures Ends(a + b) == Ends(a) + Ends(b)
  {
    assert forall l :: l in a + b <==> l in a || l in b;
  }

  // ---- all together ----

  /** Averages the positions of each node. */
  method ToPoints(ghost t: Centres, ghost rows: seq<EdgeRow>, nodes: map<string, NodeAgg>) returns (points: map<string, Node>)
    requires forall k :: k in nodes ==> nodes[k].Value() == NodeOf(t, rows, k)
    ensures points.Keys == nodes.Keys
    ensures forall k :: k in points ==> points[k] == ToNode(NodeOf(t, rows, k))
  {
    hide NodeOf, ToNode;
    points := map[];
    var todo := nodes.Keys;
    while todo != {}
      invariant todo <= nodes.Keys && points.Keys == nodes.Keys - todo
      invariant forall k :: k in points ==> points[k] == ToNode(NodeOf(t, rows, k))
    {
      var k :| k in todo;
      points := points[k := ToNode(nodes[k].Value())];
      todo := todo - {k};
    }
  }

  /** Lines and points of the map; rows without two valid ends and weightless edges are skipped. */
  method BuildMapFromGeoEdges(t: Centres, act: string -> Status, rows: seq<EdgeRow>)
    returns (lines: seq<Line>, points: map<string, Node>, skippedNoGeo: nat, ghost order: seq<string>)
    ensures Enumerates(order, EdgeKeys(t, rows)) && lines == LinesOf(t, act, rows, order)
    ensures points.Keys == Ends(lines)
    ensures forall k :: k in points ==> points[k] == ToNode(NodeOf(t, rows, k))
    ensures skippedNoGeo == InvalidRows(t, rows) + |Weightless(t, rows, EdgeKeys(t, rows))|
  {
    hide EdgeOf, NodeOf, LinesOf, Ends, EdgeKeys, RowKeys, InvalidRows, ToNode, Enumerates;
    var edges, invalid := CollectEdges(t, rows);
    var active: set<string>;
    var idle: nat;
    lines, active, idle, order := EmitLines(t, act, rows, edges);
    EndsAreRowKeys(t, act, rows, order);
    var nodes := CollectNodes(t, rows, active);
    points := ToPoints(t, rows, nodes);
    skippedNoGeo := invalid + idle;
    assert active * RowKeys(rows) == active;
  }
}
