/** Conservation pair by pair: which end keys a line carries. */
module MapPairs {
  import opened Common
  import opened MapModel
  import opened MapBuild
  import opened MapLaws

  /** The sum of g over the lines from s to d. */
  function PairLines(g: Line -> nat, lines: seq<Line>, s: string, d: string): nat {
    if lines == [] then 0
    else
      var l := lines[|lines| - 1];
      PairLines(g, lines[..|lines| - 1], s, d) + if l.src == s && l.dst == d then g(l) else 0
  }

  /** The sum of f over the counted rows from s to d. */
  function PairRows(t: Centres, f: EdgeRow -> nat, rows: seq<EdgeRow>, active: set<string>, s: string, d: string): nat {
    if rows == [] then 0
    else
      var row := rows[|rows| - 1];
      PairRows(t, f, rows[..|rows| - 1], active, s, d) +
      if BothValid(t, row) && EdgeKey(row) in active && row.srcKey == s && row.dstKey == d then f(row) else 0
  }

  predicate NamedBy(e: EdgeVal, s: string, d: string) {
    e.srcKey == s && e.dstKey == d
  }

  // ---- the lines of a pair are those of one edge ----

  lemma {:induction false} PairLinesJoin(g: Line -> nat, a: seq<Line>, b: seq<Line>, s: string, d: string)
    ensures PairLines(g, a + b, s, d) == PairLines(g, a, s, d) + PairLines(g, b, s, d)
  {
    if b == [] {
      assert a + b == a;
    } else {
      assert (a + b)[..|a + b| - 1] == a + b[..|b| - 1];
      PairLinesJoin(g, a, b[..|b| - 1], s, d);
    }
  }

  lemma {:induction false} OnePair(g: Line -> nat, lines: seq<Line>, s: string, d: string, x: string, y: string)
    requires forall i :: 0 <= i < |lines| ==> lines[i].src == x && lines[i].dst == y
    ensures PairLines(g, lines, s, d) == if x == s && y == d then LinesSum(g, lines) else 0
  {
    if lines != [] {
      OnePair(g, lines[..|lines| - 1], s, d, x, y);
    }
  }

  lemma PairOfEdge(act: string -> Status, g: Line -> nat, e: EdgeVal, s: string, d: string)
    ensures PairLines(g, Emitted(act, e), s, d) == if NamedBy(e, s, d) then LinesSum(g, Emitted(act, e)) else 0
  {
    hide AllowedShare, BlockedShare, Mean, StatusOf;
    OnePair(g, Emitted(act, e), s, d, e.srcKey, e.dstKey);
  }

  /** Only the edge with the joined key can carry the pair. */
  lemma OtherEdges(t: Centres, act: string -> Status, g: Line -> nat, rows: seq<EdgeRow>, k: string, s: string, d: string)
    requires k != JoinKeys(s, d)
    ensures PairLines(g, Emitted(act, EdgeOf(t, rows, k)), s, d) == 0
  {
    hide EdgeOf, BothValid, LinesSum, ToLines, JoinKeys;
    var e := EdgeOf(t, rows, k);
    PairOfEdge(act, g, e, s, d);
    WeightIsCount(t, rows, k);
    if e.coordWeight > 0 {
      var i := NamingRow(t, rows, k);
    }
  }

  lemma {:induction false} LinesOfPair(t: Centres, act: string -> Status, g: Line -> nat, rows: seq<EdgeRow>, order: seq<string>,
                                       s: string, d: string)
    requires NoRepeats(order)
    ensures PairLines(g, LinesOf(t, act, rows, order), s, d) ==
      if JoinKeys(s, d) in order && NamedBy(EdgeOf(t, rows, JoinKeys(s, d)), s, d)
      then LinesSum(g, Emitted(act, EdgeOf(t, rows, JoinKeys(s, d)))) else 0
  {
    hide EdgeOf, Emitted, LinesSum, NamedBy, JoinKeys;
    if order != [] {
      var init, k := order[..|order| - 1], order[|order| - 1];
      LinesOfPair(t, act, g, rows, init, s, d);
      PairLinesJoin(g, LinesOf(t, act, rows, init), Emitted(act, EdgeOf(t, rows, k)), s, d);
      assert order == init + [k];
      if k == JoinKeys(s, d) {
        PairOfEdge(act, g, EdgeOf(t, rows, k), s, d);
      } else {
        OtherEdges(t, act, g, rows, k, s, d);
      }
    }
  }

  // ---- the rows of a pair ----

  lemma {:induction false} PairRowsAll(t: Centres, f: EdgeRow -> nat, rows: seq<EdgeRow>, active: set<string>, s: string, d: string)
    requires JoinKeys(s, d) in active
    requires forall i :: 0 <= i < |rows| && BothValid(t, rows[i]) && EdgeKey(rows[i]) == JoinKeys(s, d) && f(rows[i]) > 0 ==>
      rows[i].srcKey == s && rows[i].dstKey == d
    ensures PairRows(t, f, rows, active, s, d) == RowsSum(t, f, rows, {JoinKeys(s, d)})
  {
    hide BothValid, JoinKeys;
    if rows != [] {
      PairRowsAll(t, f, rows[..|rows| - 1], active, s, d);
    }
  }

  lemma {:induction false} PairRowsNone(t: Centres, f: EdgeRow -> nat, rows: seq<EdgeRow>, active: set<string>, s: string, d: string)
    requires JoinKeys(s, d) in active ==>
      forall i :: 0 <= i < |rows| && BothValid(t, rows[i]) && rows[i].srcKey == s && rows[i].dstKey == d ==> f(rows[i]) == 0
    ensures PairRows(t, f, rows, active, s, d) == 0
  {
    hide BothValid, JoinKeys;
    if rows != [] {
      PairRowsNone(t, f, rows[..|rows| - 1], active, s, d);
    }
  }

  lemma {:induction false} PairRowsSome(t: Centres, f: EdgeRow -> nat, rows: seq<EdgeRow>, active: set<string>, i: nat)
    requires i < |rows| && BothValid(t, rows[i]) && EdgeKey(rows[i]) in active
    ensures PairRows(t, f, rows, active, rows[i].srcKey, rows[i].dstKey) >= f(rows[i])
  {
    hide BothValid, EdgeKey;
    if i < |rows| - 1 {
      assert rows[..|rows| - 1][i] == rows[i];
      PairRowsSome(t, f, rows[..|rows| - 1], active, i);
    }
  }

  // ---- exactly when pairs are conserved ----

  /** For every pair of keys the lines carry what the rows do. */
  ghost predicate PairsConserve(t: Centres, act: string -> Status, f: EdgeRow -> nat, g: Line -> nat,
                                rows: seq<EdgeRow>, order: seq<string>) {
    forall s, d :: PairLines(g, LinesOf(t, act, rows, order), s, d) == PairRows(t, f, rows, Active(t, rows, EdgeKeys(t, rows)), s, d)
  }

  /** Whatever has something to carry bears the keys its edge was given. */
  ghost predicate CarriersNamed(t: Centres, f: EdgeRow -> nat, rows: seq<EdgeRow>) {
    forall i :: 0 <= i < |rows| && BothValid(t, rows[i]) && EdgeOf(t, rows, EdgeKey(rows[i])).coordWeight > 0 && f(rows[i]) > 0 ==>
      NamedBy(EdgeOf(t, rows, EdgeKey(rows[i])), rows[i].srcKey, rows[i].dstKey)
  }

  lemma ActiveIsKeyed(t: Centres, rows: seq<EdgeRow>, k: string)
    ensures k in Active(t, rows, EdgeKeys(t, rows)) <==> EdgeOf(t, rows, k).coordWeight > 0
  {
    hide BothValid;
    WeightIsCount(t, rows, k);
    if EdgeOf(t, rows, k).coordWeight > 0 {
      var i := NamingRow(t, rows, k);
      assert rows[i] in rows;
    }
  }

  lemma PairAgrees(t: Centres, act: string -> Status, f: EdgeRow -> nat, g: Line -> nat, rows: seq<EdgeRow>, order: seq<string>,
                   s: string, d: string)
    requires Enumerates(order, EdgeKeys(t, rows)) && EdgeWise(t, act, f, g, rows) && CarriersNamed(t, f, rows)
    ensures PairLines(g, LinesOf(t, act, rows, order), s, d) == PairRows(t, f, rows, Active(t, rows, EdgeKeys(t, rows)), s, d)
  {
    hide EdgeOf, Emitted, LinesSum, RowsSum, BothValid, LinesOf, PairLines, PairRows, Active, EdgeKeys;
    var key, active := JoinKeys(s, d), Active(t, rows, EdgeKeys(t, rows));
    var e := EdgeOf(t, rows, key);
    LinesOfPair(t, act, g, rows, order, s, d);
    ActiveIsKeyed(t, rows, key);
    hide JoinKeys;
    assert LinesSum(g, Emitted(act, e)) == if e.coordWeight == 0 then 0 else RowsSum(t, f, rows, {key});
    if key in active && NamedBy(e, s, d) {
      assert key in order by { ActiveSubset(t, rows); }
      PairRowsAll(t, f, rows, active, s, d);
    } else {
      PairRowsNone(t, f, rows, active, s, d);
    }
  }

  lemma ActiveSubset(t: Centres, rows: seq<EdgeRow>)
    ensures Active(t, rows, EdgeKeys(t, rows)) <= EdgeKeys(t, rows)
  {
  }

  lemma ConservedWhenNamed(t: Centres, act: string -> Status, f: EdgeRow -> nat, g: Line -> nat,
                           rows: seq<EdgeRow>, order: seq<string>)
    requires Enumerates(order, EdgeKeys(t, rows)) && EdgeWise(t, act, f, g, rows)
    ensures PairsConserve(t, act, f, g, rows, order) <==> CarriersNamed(t, f, rows)
  {
    hide EdgeOf, Emitted, LinesSum, RowsSum, BothValid, LinesOf, PairLines, PairRows, Active, EdgeKeys, JoinKeys, EdgeWise;
    if CarriersNamed(t, f, rows) {
      forall s, d
        ensures PairLines(g, LinesOf(t, act, rows, order), s, d) == PairRows(t, f, rows, Active(t, rows, EdgeKeys(t, rows)), s, d)
      {
        PairAgrees(t, act, f, g, rows, order, s, d);
      }
    }
    if PairsConserve(t, act, f, g, rows, order) {
      forall i | 0 <= i < |rows| && BothValid(t, rows[i]) && EdgeOf(t, rows, EdgeKey(rows[i])).coordWeight > 0 && f(rows[i]) > 0
        ensures NamedBy(EdgeOf(t, rows, EdgeKey(rows[i])), rows[i].srcKey, rows[i].dstKey)
      {
        ActiveIsKeyed(t, rows, EdgeKey(rows[i]));
        PairRowsSome(t, f, rows, Active(t, rows, EdgeKeys(t, rows)), i);
        LinesOfPair(t, act, g, rows, order, rows[i].srcKey, rows[i].dstKey);
      }
    }
  }

  /** Row j is the first located row with this joined key that counts anything. */
  predicate FirstCounted(t: Centres, rows: seq<EdgeRow>, key: string, j: nat) {
    j < |rows| && BothValid(t, rows[j]) && EdgeKey(rows[j]) == key && rows[j].count > 0 &&
    forall i :: 0 <= i < j && BothValid(t, rows[i]) && EdgeKey(rows[i]) == key ==> rows[i].count == 0
  }

  predicate Carries(t: Centres, f: EdgeRow -> nat, row: EdgeRow) {
    BothValid(t, row) && f(row) > 0
  }

  /** Every located row that carries something has the two keys of the first counted row with the same joined key. */
  predicate KeysAgree(t: Centres, f: EdgeRow -> nat, rows: seq<EdgeRow>) {
    forall i, j :: 0 <= i < |rows| && 0 <= j < |rows| && Carries(t, f, rows[i]) && FirstCounted(t, rows, EdgeKey(rows[i]), j) ==>
      rows[i].srcKey == rows[j].srcKey && rows[i].dstKey == rows[j].dstKey
  }

  /** An edge that counts anything has the keys of its first counted row. */
  lemma {:induction false} FirstRow(t: Centres, rows: seq<EdgeRow>, key: string) returns (j: nat)
    requires EdgeOf(t, rows, key).count > 0
    ensures FirstCounted(t, rows, key, j) && NamedBy(EdgeOf(t, rows, key), rows[j].srcKey, rows[j].dstKey)
  {
    hide Plus, Wrap64, BothValid, EdgeKey;
    var n := |rows| - 1;
    var init := rows[..n];
    assert forall i :: 0 <= i < n ==> init[i] == rows[i];
    if EdgeOf(t, init, key).count > 0 {
      j := FirstRow(t, init, key);
    } else {
      WeightIsCount(t, init, key);
      WeightlessMeansUncounted(t, init, key);
      j := n;
    }
  }

  lemma KeysAgreeAsNamed(t: Centres, f: EdgeRow -> nat, rows: seq<EdgeRow>)
    ensures KeysAgree(t, f, rows) <==> CarriersNamed(t, f, rows)
  {
    hide EdgeOf, BothValid, EdgeKey;
    forall i | 0 <= i < |rows|
      ensures var key := EdgeKey(rows[i]);
        if EdgeOf(t, rows, key).coordWeight > 0
        then exists j: nat :: FirstCounted(t, rows, key, j) && NamedBy(EdgeOf(t, rows, key), rows[j].srcKey, rows[j].dstKey)
        else forall j: nat :: !FirstCounted(t, rows, key, j)
    {
      var key := EdgeKey(rows[i]);
      WeightIsCount(t, rows, key);
      WeightlessMeansUncounted(t, rows, key);
      if EdgeOf(t, rows, key).coordWeight > 0 {
        var j := FirstRow(t, rows, key);
      }
    }
    forall key, j: nat, k: nat | FirstCounted(t, rows, key, j) && FirstCounted(t, rows, key, k)
      ensures j == k
    {
    }
    hide FirstCounted, NamedBy;
  }

  /**
   * Pairs are conserved exactly when every row that carries something has the keys of
   * the first counted row it shares its joined key with.
   */
  lemma PairsConservedExactly(t: Centres, act: string -> Status, f: EdgeRow -> nat, g: Line -> nat,
                              rows: seq<EdgeRow>, order: seq<string>)
    requires Enumerates(order, EdgeKeys(t, rows)) && EdgeWise(t, act, f, g, rows)
    ensures PairsConserve(t, act, f, g, rows, order) <==> KeysAgree(t, f, rows)
  {
    hide Enumerates, EdgeKeys, EdgeWise, PairsConserve, KeysAgree, CarriersNamed;
    ConservedWhenNamed(t, act, f, g, rows, order);
    KeysAgreeAsNamed(t, f, rows);
  }

  // ---- exactly when bytes are conserved ----

  /** For every pair of keys the lines carry the rows' bytes, modulo 2^64. */
  ghost predicate PairsConserveBytes(t: Centres, act: string -> Status, f: EdgeRow -> nat, g: Line -> nat,
                                     rows: seq<EdgeRow>, order: seq<string>) {
    forall s, d :: Wrap64(PairLines(g, LinesOf(t, act, rows, order), s, d)) ==
      Wrap64(PairRows(t, f, rows, Active(t, rows, EdgeKeys(t, rows)), s, d))
  }

  /** The sum of f over the located rows whose two keys are one of the pairs. */
  function PairsSum(t: Centres, f: EdgeRow -> nat, rows: seq<EdgeRow>, pairs: set<(string, string)>): nat {
    if rows == [] then 0
    else
      var row := rows[|rows| - 1];
      PairsSum(t, f, rows[..|rows| - 1], pairs) + if BothValid(t, row) && (row.srcKey, row.dstKey) in pairs then f(row) else 0
  }

  /** The edge of the pair counts something, but bears the keys of another pair. */
  predicate Stray(t: Centres, rows: seq<EdgeRow>, s: string, d: string) {
    exists j :: 0 <= j < |rows| && FirstCounted(t, rows, JoinKeys(s, d), j) && (rows[j].srcKey != s || rows[j].dstKey != d)
  }

  /** The rows of each stray pair add up to nothing, modulo 2^64. */
  ghost predicate StraysCancel(t: Centres, f: EdgeRow -> nat, rows: seq<EdgeRow>) {
    forall s, d :: Stray(t, rows, s, d) ==> Wrap64(PairsSum(t, f, rows, {(s, d)})) == 0
  }

  lemma {:induction false} PairsSumNone(t: Centres, f: EdgeRow -> nat, rows: seq<EdgeRow>)
    ensures PairsSum(t, f, rows, {}) == 0
  {
    if rows != [] {
      PairsSumNone(t, f, rows[..|rows| - 1]);
    }
  }

  lemma {:induction false} PairsSumSplit(t: Centres, f: EdgeRow -> nat, rows: seq<EdgeRow>, pairs: set<(string, string)>, p: (string, string))
    requires p !in pairs
    ensures PairsSum(t, f, rows, pairs + {p}) == PairsSum(t, f, rows, pairs) + PairsSum(t, f, rows, {p})
  {
    hide BothValid;
    if rows != [] {
      PairsSumSplit(t, f, rows[..|rows| - 1], pairs, p);
    }
  }

  /** Pairs that each add up to nothing do so together. */
  lemma {:induction false} PairsCancel(t: Centres, f: EdgeRow -> nat, rows: seq<EdgeRow>, pairs: set<(string, string)>)
    requires forall p :: p in pairs ==> Wrap64(PairsSum(t, f, rows, {p})) == 0
    ensures Wrap64(PairsSum(t, f, rows, pairs)) == 0
  {
    hide PairsSum, Wrap64;
    assert Wrap64(0) == 0 by { ZeroWraps(); }
    if pairs == {} {
      PairsSumNone(t, f, rows);
    } else {
      var p :| p in pairs;
      PairsCancel(t, f, rows, pairs - {p});
      PairsSumSplit(t, f, rows, pairs - {p}, p);
      assert pairs - {p} + {p} == pairs;
      WrapJoin(PairsSum(t, f, rows, pairs - {p}), PairsSum(t, f, rows, {p}), 0, 0);
    }
  }

  lemma ZeroWraps()
    ensures Wrap64(0) == 0
  {
  }

  lemma {:induction false} PairRowsIsSum(t: Centres, f: EdgeRow -> nat, rows: seq<EdgeRow>, active: set<string>, s: string, d: string)
    ensures PairRows(t, f, rows, active, s, d) == if JoinKeys(s, d) in active then PairsSum(t, f, rows, {(s, d)}) else 0
  {
    hide BothValid, JoinKeys;
    if rows != [] {
      PairRowsIsSum(t, f, rows[..|rows| - 1], active, s, d);
    }
  }

  /** The rows of one edge, pair by pair. */
  lemma {:induction false} EdgeIsPairs(t: Centres, f: EdgeRow -> nat, rows: seq<EdgeRow>, key: string, pairs: set<(string, string)>)
    requires forall i :: 0 <= i < |rows| && BothValid(t, rows[i]) ==> (EdgeKey(rows[i]) == key <==> (rows[i].srcKey, rows[i].dstKey) in pairs)
    ensures RowsSum(t, f, rows, {key}) == PairsSum(t, f, rows, pairs)
  {
    hide BothValid, EdgeKey;
    if rows != [] {
      EdgeIsPairs(t, f, rows[..|rows| - 1], key, pairs);
    }
  }

  lemma StrayIsMisnamed(t: Centres, rows: seq<EdgeRow>, s: string, d: string)
    ensures Stray(t, rows, s, d) <==>
      EdgeOf(t, rows, JoinKeys(s, d)).coordWeight > 0 && !NamedBy(EdgeOf(t, rows, JoinKeys(s, d)), s, d)
  {
    hide EdgeOf, BothValid, EdgeKey, JoinKeys;
    var key := JoinKeys(s, d);
    WeightIsCount(t, rows, key);
    WeightlessMeansUncounted(t, rows, key);
    if EdgeOf(t, rows, key).coordWeight > 0 {
      var j := FirstRow(t, rows, key);
      forall k: nat | FirstCounted(t, rows, key, k)
        ensures k == j
      {
      }
    }
  }

  /** The pairs of the located rows with this joined key, but one. */
  function OtherPairs(t: Centres, rows: seq<EdgeRow>, key: string, p: (string, string)): set<(string, string)> {
    (set i | 0 <= i < |rows| && BothValid(t, rows[i]) && EdgeKey(rows[i]) == key :: (rows[i].srcKey, rows[i].dstKey)) - {p}
  }

  lemma OtherPairsShareKey(t: Centres, rows: seq<EdgeRow>, s: string, d: string)
    ensures forall p :: p in OtherPairs(t, rows, JoinKeys(s, d), (s, d)) ==> JoinKeys(p.0, p.1) == JoinKeys(s, d) && p != (s, d)
    ensures forall i :: 0 <= i < |rows| && BothValid(t, rows[i]) ==>
      (EdgeKey(rows[i]) == JoinKeys(s, d) <==> (rows[i].srcKey, rows[i].dstKey) in OtherPairs(t, rows, JoinKeys(s, d), (s, d)) + {(s, d)})
  {
    hide BothValid, JoinKeys;
    forall i | 0 <= i < |rows| && BothValid(t, rows[i])
      ensures EdgeKey(rows[i]) == JoinKeys(s, d) <==>
        (rows[i].srcKey, rows[i].dstKey) in OtherPairs(t, rows, JoinKeys(s, d), (s, d)) + {(s, d)}
    {
    }
  }

  /** What an edge with the pair's own keys carries, beside the pair's rows, is its stray pairs' rows. */
  lemma NamedEdgeSum(t: Centres, f: EdgeRow -> nat, rows: seq<EdgeRow>, s: string, d: string)
    requires StraysCancel(t, f, rows) && EdgeOf(t, rows, JoinKeys(s, d)).coordWeight > 0
    requires NamedBy(EdgeOf(t, rows, JoinKeys(s, d)), s, d)
    ensures Wrap64(RowsSum(t, f, rows, {JoinKeys(s, d)})) == Wrap64(PairsSum(t, f, rows, {(s, d)}))
  {
    hide EdgeOf, RowsSum, PairsSum, BothValid, Wrap64, OtherPairs, JoinKeys, Stray, EdgeKey;
    var others := OtherPairs(t, rows, JoinKeys(s, d), (s, d));
    OtherPairsShareKey(t, rows, s, d);
    forall p | p in others
      ensures Wrap64(PairsSum(t, f, rows, {p})) == 0
    {
      StrayIsMisnamed(t, rows, p.0, p.1);
      assert p == (p.0, p.1);
    }
    PairsCancel(t, f, rows, others);
    EdgeIsPairs(t, f, rows, JoinKeys(s, d), others + {(s, d)});
    PairsSumSplit(t, f, rows, others, (s, d));
    ZeroWraps();
    WrapJoin(PairsSum(t, f, rows, {(s, d)}), PairsSum(t, f, rows, others), PairsSum(t, f, rows, {(s, d)}), 0);
  }

  /** What the lines of one pair carry: the whole edge when it bears the pair's keys, nothing otherwise. */
  lemma PairBytes(t: Centres, act: string -> Status, f: EdgeRow -> nat, g: Line -> nat, rows: seq<EdgeRow>, order: seq<string>,
                  s: string, d: string)
    requires Enumerates(order, EdgeKeys(t, rows)) && EdgeWiseBytes(t, act, f, g, rows)
    ensures var key, e := JoinKeys(s, d), EdgeOf(t, rows, JoinKeys(s, d));
      Wrap64(PairLines(g, LinesOf(t, act, rows, order), s, d)) ==
      if e.coordWeight > 0 && NamedBy(e, s, d) then Wrap64(RowsSum(t, f, rows, {key})) else 0
    ensures var key, e := JoinKeys(s, d), EdgeOf(t, rows, JoinKeys(s, d));
      PairRows(t, f, rows, Active(t, rows, EdgeKeys(t, rows)), s, d) ==
      if e.coordWeight > 0 then PairsSum(t, f, rows, {(s, d)}) else 0
  {
    hide EdgeOf, Emitted, LinesSum, RowsSum, BothValid, LinesOf, PairLines, PairRows, Active, EdgeKeys, PairsSum;
    var key, active := JoinKeys(s, d), Active(t, rows, EdgeKeys(t, rows));
    var e := EdgeOf(t, rows, key);
    LinesOfPair(t, act, g, rows, order, s, d);
    ActiveIsKeyed(t, rows, key);
    ActiveSubset(t, rows);
    PairRowsIsSum(t, f, rows, active, s, d);
    ZeroWraps();
    hide JoinKeys, Wrap64, NamedBy;
    assert Wrap64(LinesSum(g, Emitted(act, e))) == if e.coordWeight == 0 then 0 else Wrap64(RowsSum(t, f, rows, {key}));
  }

  /**
   * Bytes are conserved pair by pair exactly when the rows of each pair whose edge bears
   * another pair's keys add up to nothing, modulo 2^64.
   */
  lemma BytesConservedExactly(t: Centres, act: string -> Status, f: EdgeRow -> nat, g: Line -> nat,
                              rows: seq<EdgeRow>, order: seq<string>)
    requires Enumerates(order, EdgeKeys(t, rows)) && EdgeWiseBytes(t, act, f, g, rows)
    ensures PairsConserveBytes(t, act, f, g, rows, order) <==> StraysCancel(t, f, rows)
  {
    hide EdgeOf, RowsSum, LinesOf, PairLines, PairRows, Active, EdgeKeys, PairsSum, Wrap64, Stray, EdgeWiseBytes, NamedBy, Enumerates, JoinKeys;
    ZeroWraps();
    forall s, d
      ensures StraysCancel(t, f, rows) || Stray(t, rows, s, d) ==>
        (Wrap64(PairLines(g, LinesOf(t, act, rows, order), s, d)) ==
           Wrap64(PairRows(t, f, rows, Active(t, rows, EdgeKeys(t, rows)), s, d)) <==>
         (Stray(t, rows, s, d) ==> Wrap64(PairsSum(t, f, rows, {(s, d)})) == 0))
    {
      PairBytes(t, act, f, g, rows, order, s, d);
      StrayIsMisnamed(t, rows, s, d);
      var e := EdgeOf(t, rows, JoinKeys(s, d));
      if StraysCancel(t, f, rows) && e.coordWeight > 0 && NamedBy(e, s, d) {
        NamedEdgeSum(t, f, rows, s, d);
      }
    }
  }

  lemma {:induction false} NoCarrierNoSum(t: Centres, f: EdgeRow -> nat, rows: seq<EdgeRow>, p: (string, string))
    requires forall i :: 0 <= i < |rows| && Carries(t, f, rows[i]) ==> (rows[i].srcKey, rows[i].dstKey) != p
    ensures PairsSum(t, f, rows, {p}) == 0
  {
    hide BothValid;
    if rows != [] {
      NoCarrierNoSum(t, f, rows[..|rows| - 1], p);
    }
  }

  /** Where keys agree there is nothing stray to cancel. */
  lemma AgreeingCancel(t: Centres, f: EdgeRow -> nat, rows: seq<EdgeRow>)
    requires KeysAgree(t, f, rows)
    ensures StraysCancel(t, f, rows)
  {
    hide BothValid, PairsSum, Wrap64, FirstCounted;
    ZeroWraps();
    forall s, d | Stray(t, rows, s, d)
      ensures PairsSum(t, f, rows, {(s, d)}) == 0
    {
      NoCarrierNoSum(t, f, rows, (s, d));
    }
  }

  /**
   * Bytes sent and received are conserved pair by pair exactly when stray rows cancel;
   * they do where the rows' keys agree.
   */
  lemma PairBytesAreConserved(t: Centres, act: string -> Status, rows: seq<EdgeRow>, order: seq<string>)
    requires Enumerates(order, EdgeKeys(t, rows))
    ensures PairsConserveBytes(t, act, RowSent, LineSent, rows, order) <==> StraysCancel(t, RowSent, rows)
    ensures PairsConserveBytes(t, act, RowRecv, LineRecv, rows, order) <==> StraysCancel(t, RowRecv, rows)
    ensures KeysAgree(t, RowSent, rows) ==> PairsConserveBytes(t, act, RowSent, LineSent, rows, order)
    ensures KeysAgree(t, RowRecv, rows) ==> PairsConserveBytes(t, act, RowRecv, LineRecv, rows, order)
  {
    hide EdgeWise, EdgeKeys, KeysAgree, EdgeWiseBytes, Enumerates, PairsConserveBytes, StraysCancel;
    EdgesConserve(t, act, rows);
    BytesConservedExactly(t, act, RowSent, LineSent, rows, order);
    BytesConservedExactly(t, act, RowRecv, LineRecv, rows, order);
    if KeysAgree(t, RowSent, rows) {
      AgreeingCancel(t, RowSent, rows);
    }
    if KeysAgree(t, RowRecv, rows) {
      AgreeingCancel(t, RowRecv, rows);
    }
  }

  /** Allowed and blocked counts are conserved pair by pair exactly where the rows' keys agree. */
  lemma PairsAreConserved(t: Centres, act: string -> Status, rows: seq<EdgeRow>, order: seq<string>)
    requires Enumerates(order, EdgeKeys(t, rows))
    ensures PairsConserve(t, act, RowAllowed, LineAllowed, rows, order) <==> KeysAgree(t, RowAllowed, rows)
    ensures PairsConserve(t, act, RowBlocked, LineBlocked, rows, order) <==> KeysAgree(t, RowBlocked, rows)
  {
    hide EdgeWise, EdgeKeys, PairsConserve, KeysAgree, EdgeWiseBytes, Enumerates;
    EdgesConserve(t, act, rows);
    PairsConservedExactly(t, act, RowAllowed, LineAllowed, rows, order);
    PairsConservedExactly(t, act, RowBlocked, LineBlocked, rows, order);
  }

  // ---- keys without the arrow ----

  predicate ArrowFree(key: string) {
    '→' !in key
  }

  /** Joined keys can be taken apart when the first parts have no arrow. */
  lemma JoinIsInjective(a: string, b: string, c: string, d: string)
    requires ArrowFree(a) && ArrowFree(c) && JoinKeys(a, b) == JoinKeys(c, d)
    ensures a == c && b == d
  {
    var j, k := JoinKeys(a, b), JoinKeys(c, d);
    assert j[|a|] == '→' && k[|c|] == '→';
    assert forall i :: 0 <= i < |a| ==> j[i] == a[i];
    assert forall i :: 0 <= i < |c| ==> k[i] == c[i];
    assert |a| == |c|;
    assert a == j[..|a|] && c == k[..|c|];
    assert b == j[|a| + 1..] && d == k[|c| + 1..];
  }

  lemma ArrowFreeAgree(t: Centres, f: EdgeRow -> nat, rows: seq<EdgeRow>)
    requires forall i :: 0 <= i < |rows| ==> ArrowFree(rows[i].srcKey)
    ensures KeysAgree(t, f, rows)
  {
    hide BothValid, ArrowFree, JoinKeys;
    forall i, j | 0 <= i < |rows| && 0 <= j < |rows| && FirstCounted(t, rows, EdgeKey(rows[i]), j)
      ensures rows[i].srcKey == rows[j].srcKey && rows[i].dstKey == rows[j].dstKey
    {
      JoinIsInjective(rows[i].srcKey, rows[i].dstKey, rows[j].srcKey, rows[j].dstKey);
    }
  }

  /** Without arrows in source keys, counts and bytes are conserved pair by pair. */
  lemma ArrowFreeIsConserved(t: Centres, act: string -> Status, rows: seq<EdgeRow>, order: seq<string>)
    requires Enumerates(order, EdgeKeys(t, rows))
    requires forall i :: 0 <= i < |rows| ==> ArrowFree(rows[i].srcKey)
    ensures PairsConserve(t, act, RowAllowed, LineAllowed, rows, order)
    ensures PairsConserve(t, act, RowBlocked, LineBlocked, rows, order)
    ensures PairsConserveBytes(t, act, RowSent, LineSent, rows, order)
    ensures PairsConserveBytes(t, act, RowRecv, LineRecv, rows, order)
  {
    hide EdgeKeys, PairsConserve, PairsConserveBytes, KeysAgree, ArrowFree, Enumerates, StraysCancel;
    ArrowFreeAgree(t, RowAllowed, rows);
    ArrowFreeAgree(t, RowBlocked, rows);
    ArrowFreeAgree(t, RowSent, rows);
    ArrowFreeAgree(t, RowRecv, rows);
    PairsAreConserved(t, act, rows, order);
    PairBytesAreConserved(t, act, rows, order);
  }

  // ---- two pairs on one edge ----

  /** The row from "a" to "b→c", which carries no bytes. */
  function PlainRow(at: Geo, other: Geo): EdgeRow {
    EdgeRow("a", "", at, "b→c", "", other, 1, 1, 0, 0, 0, "")
  }

  /** A row from "a→b" to "c", which has the same joined key. */
  function ArrowRow(at: Geo, other: Geo, sent: U64): EdgeRow {
    EdgeRow("a→b", "", at, "c", "", other, 1, 1, 0, sent, 0, "")
  }

  lemma ArrowRows(t: Centres, at: Geo, other: Geo, sent: U64)
    requires at != ORIGIN && other != ORIGIN && forall key :: t.continent(key) == None
    ensures EdgeKey(PlainRow(at, other)) == EdgeKey(ArrowRow(at, other, sent)) == JoinKeys("a→b", "c")
    ensures BothValid(t, PlainRow(at, other)) && BothValid(t, ArrowRow(at, other, sent))
  {
    assert EdgeKey(PlainRow(at, other)) == "a→b→c" == EdgeKey(ArrowRow(at, other, sent));
  }

  lemma {:induction false} PairSumOfTwo(t: Centres, f: EdgeRow -> nat, a: EdgeRow, b: EdgeRow, p: (string, string))
    requires BothValid(t, a) && BothValid(t, b)
    ensures PairsSum(t, f, [a, b], {p}) ==
      (if (a.srcKey, a.dstKey) == p then f(a) else 0) + (if (b.srcKey, b.dstKey) == p then f(b) else 0)
  {
    assert [a, b][..1] == [a] && [a][..0] == [];
    assert PairsSum(t, f, [a], {p}) == if (a.srcKey, a.dstKey) == p then f(a) else 0;
  }

  /** An arrow inside a key can merge two pairs: the lines do not carry what the rows of either pair do. */
  lemma ArrowMergesPairs(t: Centres, act: string -> Status, at: Geo, other: Geo, order: seq<string>)
    requires at != ORIGIN && other != ORIGIN && forall key :: t.continent(key) == None
    requires Enumerates(order, EdgeKeys(t, [PlainRow(at, other), ArrowRow(at, other, 1)]))
    ensures var rows := [PlainRow(at, other), ArrowRow(at, other, 1)];
      !PairsConserve(t, act, RowAllowed, LineAllowed, rows, order) && !PairsConserveBytes(t, act, RowSent, LineSent, rows, order)
  {
    var rows := [PlainRow(at, other), ArrowRow(at, other, 1)];
    ArrowRows(t, at, other, 1);
    hide EdgeKey, BothValid, PairsConserve, EdgeKeys, Enumerates, PairsConserveBytes, JoinKeys, PairsSum;
    assert FirstCounted(t, rows, EdgeKey(rows[1]), 0) && rows[0].srcKey != rows[1].srcKey;
    assert !KeysAgree(t, RowAllowed, rows);
    PairSumOfTwo(t, RowSent, rows[0], rows[1], ("a→b", "c"));
    assert Stray(t, rows, "a→b", "c");
    assert !StraysCancel(t, RowSent, rows);
    hide KeysAgree, StraysCancel;
    PairsAreConserved(t, act, rows, order);
    PairBytesAreConserved(t, act, rows, order);
  }

  const HALF64: U64 := 0x8000_0000_0000_0000

  /** For bytes, merged pairs may cancel: two rows of 2^63 bytes that are drawn on another pair's line are not missed. */
  lemma HalvesCancel(t: Centres, act: string -> Status, at: Geo, other: Geo, order: seq<string>)
    requires at != ORIGIN && other != ORIGIN && forall key :: t.continent(key) == None
    requires Enumerates(order, EdgeKeys(t, [PlainRow(at, other), ArrowRow(at, other, HALF64), ArrowRow(at, other, HALF64)]))
    ensures var rows := [PlainRow(at, other), ArrowRow(at, other, HALF64), ArrowRow(at, other, HALF64)];
      !KeysAgree(t, RowSent, rows) && PairsConserveBytes(t, act, RowSent, LineSent, rows, order)
  {
    var a, b := PlainRow(at, other), ArrowRow(at, other, HALF64);
    var rows := [a, b, b];
    ArrowRows(t, at, other, HALF64);
    hide EdgeKey, BothValid, EdgeKeys, Enumerates, PairsConserveBytes, JoinKeys, Stray;
    assert FirstCounted(t, rows, EdgeKey(rows[1]), 0) && rows[0].srcKey != rows[1].srcKey;
    assert !KeysAgree(t, RowSent, rows);
    forall s, d
      ensures Wrap64(PairsSum(t, RowSent, rows, {(s, d)})) == 0
    {
      assert rows[..2] == [a, b];
      PairSumOfTwo(t, RowSent, a, b, (s, d));
    }
    hide KeysAgree, StraysCancel, PairsSum;
    assert StraysCancel(t, RowSent, rows) by { CancelAll(t, RowSent, rows); }
    PairBytesAreConserved(t, act, rows, order);
  }

  lemma CancelAll(t: Centres, f: EdgeRow -> nat, rows: seq<EdgeRow>)
    requires forall s, d :: Wrap64(PairsSum(t, f, rows, {(s, d)})) == 0
    ensures StraysCancel(t, f, rows)
  {
  }
}
