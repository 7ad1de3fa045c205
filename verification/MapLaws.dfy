/** What the built map promises: conserved traffic, named ends and positions. */
module MapLaws {
  import opened Common
  import opened MapModel

  // ---- sums over rows and lines ----

  /** The sum of f over the rows with two valid ends whose edge is one of keys. */
  function RowsSum(t: Centres, f: EdgeRow -> nat, rows: seq<EdgeRow>, keys: set<string>): nat {
    if rows == [] then 0
    else
      var row := rows[|rows| - 1];
      RowsSum(t, f, rows[..|rows| - 1], keys) + if BothValid(t, row) && EdgeKey(row) in keys then f(row) else 0
  }

  function LinesSum(g: Line -> nat, lines: seq<Line>): nat {
    if lines == [] then 0 else LinesSum(g, lines[..|lines| - 1]) + g(lines[|lines| - 1])
  }

  lemma {:induction false} LinesSumJoin(g: Line -> nat, a: seq<Line>, b: seq<Line>)
    ensures LinesSum(g, a + b) == LinesSum(g, a) + LinesSum(g, b)
  {
    if b == [] {
      assert a + b == a;
    } else {
      assert (a + b)[..|a + b| - 1] == a + b[..|b| - 1];
      LinesSumJoin(g, a, b[..|b| - 1]);
    }
  }

  lemma {:induction false} RowsSumSplit(t: Centres, f: EdgeRow -> nat, rows: seq<EdgeRow>, keys: set<string>, k: string)
    requires k !in keys
    ensures RowsSum(t, f, rows, keys + {k}) == RowsSum(t, f, rows, keys) + RowsSum(t, f, rows, {k})
  {
    hide BothValid;
    if rows != [] {
      RowsSumSplit(t, f, rows[..|rows| - 1], keys, k);
    }
  }

  lemma {:induction false} RowsSumNone(t: Centres, f: EdgeRow -> nat, rows: seq<EdgeRow>)
    ensures RowsSum(t, f, rows, {}) == 0
  {
    if rows != [] {
      RowsSumNone(t, f, rows[..|rows| - 1]);
    }
  }

  function RowAllowed(r: EdgeRow): nat {
    r.allowed
  }

  function RowBlocked(r: EdgeRow): nat {
    r.blocked
  }

  function RowCount(r: EdgeRow): nat {
    r.count
  }

  function RowSent(r: EdgeRow): nat {
    r.sent
  }

  function RowRecv(r: EdgeRow): nat {
    r.recv
  }

  function LineAllowed(l: Line): nat {
    l.allowed
  }

  function LineBlocked(l: Line): nat {
    l.blocked
  }

  function LineCount(l: Line): nat {
    l.count
  }

  function LineSent(l: Line): nat {
    l.sent
  }

  function LineRecv(l: Line): nat {
    l.recv
  }

  /** An edge adds up its rows. */
  lemma {:induction false} EdgeAddsUp(t: Centres, rows: seq<EdgeRow>, key: string)
    ensures var e := EdgeOf(t, rows, key);
      e.allowed == RowsSum(t, RowAllowed, rows, {key}) &&
      e.blocked == RowsSum(t, RowBlocked, rows, {key}) &&
      e.coordWeight == RowsSum(t, RowCount, rows, {key})
  {
    hide Plus, SrcMeta, DstMeta, Wrap64;
    if rows != [] {
      EdgeAddsUp(t, rows[..|rows| - 1], key);
    }
  }

  lemma {:induction false} EdgeAddsUpBytes(t: Centres, rows: seq<EdgeRow>, key: string)
    ensures EdgeOf(t, rows, key).sent == Wrap64(RowsSum(t, RowSent, rows, {key}))
    ensures EdgeOf(t, rows, key).recv == Wrap64(RowsSum(t, RowRecv, rows, {key}))
  {
    hide EdgeOf, Wrap64, BothValid, EdgeKey;
    if rows == [] {
      NothingSent(t, key);
    } else {
      var init, last := rows[..|rows| - 1], rows[|rows| - 1];
      EdgeAddsUpBytes(t, init, key);
      BytesAdded(t, rows, key);
      WrapAdd(RowsSum(t, RowSent, init, {key}), last.sent);
      WrapAdd(RowsSum(t, RowRecv, init, {key}), last.recv);
    }
  }

  lemma NothingSent(t: Centres, key: string)
    ensures EdgeOf(t, [], key).sent == EdgeOf(t, [], key).recv == Wrap64(0)
  {
  }

  lemma BytesAdded(t: Centres, rows: seq<EdgeRow>, key: string)
    requires rows != []
    ensures var e, init, last := EdgeOf(t, rows, key), EdgeOf(t, rows[..|rows| - 1], key), rows[|rows| - 1];
      if BothValid(t, last) && EdgeKey(last) == key
      then e.sent == Wrap64(init.sent + last.sent) && e.recv == Wrap64(init.recv + last.recv)
      else e == init
  {
    hide Plus, SrcMeta, DstMeta, Wrap64, BothValid, EdgeKey;
  }

  // ---- splitting a mixed edge ----

  /** The two shares of a byte sum add up to it, however the division rounds and wraps. */
  lemma SharesAddUp(bytes: U64, allowed: nat, count: nat)
    ensures Wrap64(AllowedShare(bytes, allowed, count) + BlockedShare(bytes, allowed, count)) == bytes
  {
    hide AllowedShare;
    var share := AllowedShare(bytes, allowed, count);
    if count > 0 {
      WrapBack(bytes, share);
    } else {
      assert share == bytes by { NoShare(bytes, allowed); }
    }
  }

  lemma NoShare(bytes: U64, allowed: nat)
    ensures AllowedShare(bytes, allowed, 0) == bytes
  {
  }

  lemma WrapBack(bytes: U64, share: U64)
    ensures Wrap64(share + Wrap64(bytes - share)) == bytes
  {
    if bytes < share {
      assert Wrap64(bytes - share) == bytes - share + TWO64;
    }
  }

  /** The lines of an edge with weight carry its counters; a split loses nothing. */
  lemma EmittedSums(act: string -> Status, e: EdgeVal)
    ensures LinesSum(LineAllowed, Emitted(act, e)) == if e.coordWeight == 0 then 0 else e.allowed
    ensures LinesSum(LineBlocked, Emitted(act, e)) == if e.coordWeight == 0 then 0 else e.blocked
    ensures LinesSum(LineCount, Emitted(act, e)) ==
      if e.coordWeight == 0 then 0 else if e.allowed > 0 && e.blocked > 0 then e.allowed + e.blocked else e.count
    ensures Wrap64(LinesSum(LineSent, Emitted(act, e))) == if e.coordWeight == 0 then 0 else e.sent
    ensures Wrap64(LinesSum(LineRecv, Emitted(act, e))) == if e.coordWeight == 0 then 0 else e.recv
  {
    hide AllowedShare, BlockedShare, Mean, StatusOf;
    SharesAddUp(e.sent, e.allowed, e.count);
    SharesAddUp(e.recv, e.allowed, e.count);
    if e.coordWeight > 0 && e.blocked > 0 && e.allowed > 0 {
      var lines := ToLines(act, e);
      assert lines == [lines[0]] + [lines[1]];
      TwoLines(LineAllowed, lines);
      TwoLines(LineCount, lines);
      TwoLines(LineBlocked, lines);
      TwoLines(LineSent, lines);
      TwoLines(LineRecv, lines);
    } else if e.coordWeight > 0 {
      var l := ToLines(act, e)[0];
      assert ToLines(act, e) == [l] && [l][..0] == [];
    }
  }

  lemma TwoLines(g: Line -> nat, lines: seq<Line>)
    requires |lines| == 2
    ensures LinesSum(g, lines) == g(lines[0]) + g(lines[1])
  {
    assert lines[..|lines| - 1] == [lines[0]] && [lines[0]][..0] == [];
    assert LinesSum(g, [lines[0]]) == LinesSum(g, []) + g(lines[0]);
  }

  // ---- conservation over the whole map ----

  /** The edges that become lines. */
  function Active(t: Centres, rows: seq<EdgeRow>, keys: set<string>): set<string> {
    set k | k in keys && EdgeOf(t, rows, k).coordWeight > 0
  }

  /** Edge by edge, the lines carry what the rows do. */
  ghost predicate EdgeWise(t: Centres, act: string -> Status, f: EdgeRow -> nat, g: Line -> nat, rows: seq<EdgeRow>) {
    forall k :: LinesSum(g, Emitted(act, EdgeOf(t, rows, k))) ==
      if EdgeOf(t, rows, k).coordWeight == 0 then 0 else RowsSum(t, f, rows, {k})
  }

  ghost predicate EdgeWiseBytes(t: Centres, act: string -> Status, f: EdgeRow -> nat, g: Line -> nat, rows: seq<EdgeRow>) {
    forall k :: Wrap64(LinesSum(g, Emitted(act, EdgeOf(t, rows, k)))) ==
      if EdgeOf(t, rows, k).coordWeight == 0 then 0 else Wrap64(RowsSum(t, f, rows, {k}))
  }

  lemma EdgesConserve(t: Centres, act: string -> Status, rows: seq<EdgeRow>)
    ensures EdgeWise(t, act, RowAllowed, LineAllowed, rows) && EdgeWise(t, act, RowBlocked, LineBlocked, rows)
    ensures EdgeWiseBytes(t, act, RowSent, LineSent, rows) && EdgeWiseBytes(t, act, RowRecv, LineRecv, rows)
  {
    hide EdgeOf, Emitted, LinesSum, RowsSum, Wrap64;
    forall k
      ensures var e := EdgeOf(t, rows, k);
        LinesSum(LineAllowed, Emitted(act, e)) == (if e.coordWeight == 0 then 0 else RowsSum(t, RowAllowed, rows, {k})) &&
        LinesSum(LineBlocked, Emitted(act, e)) == (if e.coordWeight == 0 then 0 else RowsSum(t, RowBlocked, rows, {k})) &&
        Wrap64(LinesSum(LineSent, Emitted(act, e))) == (if e.coordWeight == 0 then 0 else Wrap64(RowsSum(t, RowSent, rows, {k}))) &&
        Wrap64(LinesSum(LineRecv, Emitted(act, e))) == (if e.coordWeight == 0 then 0 else Wrap64(RowsSum(t, RowRecv, rows, {k})))
    {
      EmittedSums(act, EdgeOf(t, rows, k));
      EdgeAddsUp(t, rows, k);
      EdgeAddsUpBytes(t, rows, k);
    }
  }

  lemma ActiveNext(t: Centres, rows: seq<EdgeRow>, keys: set<string>, k: string)
    ensures Active(t, rows, keys + {k}) ==
      if EdgeOf(t, rows, k).coordWeight > 0 then Active(t, rows, keys) + {k} else Active(t, rows, keys)
  {
    hide EdgeOf;
  }

  function KeysOf(order: seq<string>): set<string> {
    set k | k in order
  }

  lemma KeysOfLast(order: seq<string>)
    requires order != []
    ensures KeysOf(order) == KeysOf(order[..|order| - 1]) + {order[|order| - 1]}
  {
    var init := order[..|order| - 1];
    assert order == init + [order[|order| - 1]];
  }

  ghost predicate NoRepeats(order: seq<string>) {
    forall i, j :: 0 <= i < j < |order| ==> order[i] != order[j]
  }

  lemma {:induction false} SumOverOrder(t: Centres, act: string -> Status, f: EdgeRow -> nat, g: Line -> nat,
                                        rows: seq<EdgeRow>, order: seq<string>)
    requires EdgeWise(t, act, f, g, rows) && NoRepeats(order)
    ensures LinesSum(g, LinesOf(t, act, rows, order)) == RowsSum(t, f, rows, Active(t, rows, KeysOf(order)))
  {
    hide EdgeOf, Emitted, RowsSum;
    if order == [] {
      RowsSumNone(t, f, rows);
      assert Active(t, rows, KeysOf(order)) == {};
    } else {
      var init, k := order[..|order| - 1], order[|order| - 1];
      SumOverOrder(t, act, f, g, rows, init);
      LinesSumJoin(g, LinesOf(t, act, rows, init), Emitted(act, EdgeOf(t, rows, k)));
      KeysOfLast(order);
      ActiveNext(t, rows, KeysOf(init), k);
      if EdgeOf(t, rows, k).coordWeight > 0 {
        RowsSumSplit(t, f, rows, Active(t, rows, KeysOf(init)), k);
      }
    }
  }

  lemma {:induction false} BytesOverOrder(t: Centres, act: string -> Status, f: EdgeRow -> nat, g: Line -> nat,
                                          rows: seq<EdgeRow>, order: seq<string>)
    requires EdgeWiseBytes(t, act, f, g, rows) && NoRepeats(order)
    ensures Wrap64(LinesSum(g, LinesOf(t, act, rows, order))) == Wrap64(RowsSum(t, f, rows, Active(t, rows, KeysOf(order))))
  {
    hide EdgeOf, Emitted, RowsSum, Wrap64;
    if order == [] {
      RowsSumNone(t, f, rows);
      assert Active(t, rows, KeysOf(order)) == {};
    } else {
      var init, k := order[..|order| - 1], order[|order| - 1];
      BytesOverOrder(t, act, f, g, rows, init);
      LinesSumJoin(g, LinesOf(t, act, rows, init), Emitted(act, EdgeOf(t, rows, k)));
      KeysOfLast(order);
      var active := Active(t, rows, KeysOf(init));
      ActiveNext(t, rows, KeysOf(init), k);
      WrapJoin(LinesSum(g, LinesOf(t, act, rows, init)), LinesSum(g, Emitted(act, EdgeOf(t, rows, k))),
               RowsSum(t, f, rows, active), RowsSum(t, f, rows, {k}));
      if EdgeOf(t, rows, k).coordWeight > 0 {
        RowsSumSplit(t, f, rows, active, k);
      }
    }
  }

  lemma WrapJoin(a: nat, b: nat, c: nat, d: nat)
    requires Wrap64(a) == Wrap64(c)
    ensures Wrap64(b) == Wrap64(d) ==> Wrap64(a + b) == Wrap64(c + d)
    ensures Wrap64(b) == 0 ==> Wrap64(a + b) == Wrap64(c)
  {
    WrapAdd(a, b);
    WrapAdd(Wrap64(a), b);
    WrapAdd(c, d);
    WrapAdd(Wrap64(c), d);
  }

  /**
   * Traffic is conserved: over all lines, allowed and blocked counts are those of the
   * rows with two valid ends whose edge has weight, and so are bytes modulo 2^64.
   */
  lemma TrafficIsConserved(t: Centres, act: string -> Status, rows: seq<EdgeRow>, order: seq<string>)
    requires Enumerates(order, EdgeKeys(t, rows))
    ensures var lines, active := LinesOf(t, act, rows, order), Active(t, rows, EdgeKeys(t, rows));
      LinesSum(LineAllowed, lines) == RowsSum(t, RowAllowed, rows, active) &&
      LinesSum(LineBlocked, lines) == RowsSum(t, RowBlocked, rows, active) &&
      Wrap64(LinesSum(LineSent, lines)) == Wrap64(RowsSum(t, RowSent, rows, active)) &&
      Wrap64(LinesSum(LineRecv, lines)) == Wrap64(RowsSum(t, RowRecv, rows, active))
  {
    hide LinesOf, EdgeKeys, LinesSum, RowsSum, EdgeWise, EdgeWiseBytes, Active, Wrap64;
    EdgesConserve(t, act, rows);
    assert KeysOf(order) == EdgeKeys(t, rows);
    assert NoRepeats(order);
    SumOverOrder(t, act, RowAllowed, LineAllowed, rows, order);
    SumOverOrder(t, act, RowBlocked, LineBlocked, rows, order);
    BytesOverOrder(t, act, RowSent, LineSent, rows, order);
    BytesOverOrder(t, act, RowRecv, LineRecv, rows, order);
  }

  /** An edge has weight exactly when one of its rows counts an event. */
  lemma {:induction false} WeightlessMeansUncounted(t: Centres, rows: seq<EdgeRow>, key: string)
    ensures EdgeOf(t, rows, key).coordWeight == 0 <==>
      forall i :: 0 <= i < |rows| && BothValid(t, rows[i]) && EdgeKey(rows[i]) == key ==> rows[i].count == 0
  {
    hide BothValid, Plus, Wrap64;
    if rows != [] {
      var init := rows[..|rows| - 1];
      WeightlessMeansUncounted(t, init, key);
      assert forall i :: 0 <= i < |init| ==> init[i] == rows[i];
      ValidEnds(t, rows[|rows| - 1]);
      hide EdgeKey;
    }
  }

  lemma ValidEnds(t: Centres, row: EdgeRow)
    ensures BothValid(t, row) <==> SrcMeta(t, row).valid && DstMeta(t, row).valid
  {
  }

  // ---- the counts of points ----

  /** Events at the ends with this key; a row with twice the key counts twice. */
  function EndsCount(t: Centres, rows: seq<EdgeRow>, key: string, validOnly: bool): nat {
    if rows == [] then 0
    else
      var row := rows[|rows| - 1];
      EndsCount(t, rows[..|rows| - 1], key, validOnly) +
      (if row.srcKey == key && (validOnly ==> SrcMeta(t, row).valid) then row.count else 0) +
      (if row.dstKey == key && (validOnly ==> DstMeta(t, row).valid) then row.count else 0)
  }

  /** A point counts all events at its key, and weighs those with a valid position. */
  lemma {:induction false} NodeAddsUp(t: Centres, rows: seq<EdgeRow>, key: string)
    ensures NodeOf(t, rows, key).count == EndsCount(t, rows, key, false)
    ensures NodeOf(t, rows, key).coordCount == EndsCount(t, rows, key, true)
  {
    hide Plus, SrcMeta, DstMeta;
    if rows != [] {
      NodeAddsUp(t, rows[..|rows| - 1], key);
    }
  }
}
