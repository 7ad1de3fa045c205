/** The fingerprint of the source rows that decides whether a stored snapshot is current. */
module GeoStamp {
  import opened Common
  import opened Lists
  import opened GeoModel
  import Bits

  /** A source row is its start and end address. */
  type Row = (U32, U32)

  const NO_ROWS := SourceStamp(0, 0, 0, 0, 0, 0)

  /** Both addresses in one word, the start in its upper half. */
  function Span(row: Row): (r: U64)
    ensures r == row.0 * TWO32 + row.1
  {
    SpanFits(row);
    Bits.Or(row.0 * TWO32, row.1)
  }

  lemma SpanFits(row: Row)
    ensures Bits.Or(row.0 * TWO32, row.1) == row.0 * TWO32 + row.1 < TWO64
  {
    Bits.Pow2At32();
    Bits.ModUnique(row.0 * TWO32, TWO32, row.0, 0);
    Bits.OrDisjoint(32, row.0 * TWO32, row.1);
  }

  function Xor64(a: U64, b: U64): U64 {
    Bits.Pow2At64();
    Bits.XorFits(64, a, b);
    Bits.Xor(a, b)
  }

  function Least(first: bool, current: U32, x: U32): U32 {
    if first || x < current then x else current
  }

  function Greatest(first: bool, current: U32, x: U32): U32 {
    if first || x > current then x else current
  }

  /** The stamp after one more row. */
  function Added(s: SourceStamp, row: Row): SourceStamp {
    SourceStamp(Wrap64(s.count + 1),
                Least(s.count == 0, s.minStart, row.0), Greatest(s.count == 0, s.maxEnd, row.1),
                Wrap64(s.sumStart + row.0), Wrap64(s.sumEnd + row.1), Xor64(s.xorSpan, Span(row)))
  }

  function StampOf(rows: seq<Row>): SourceStamp {
    if rows == [] then NO_ROWS else Added(StampOf(rows[..|rows| - 1]), rows[|rows| - 1])
  }

  /** A stamp under construction. */
  class StampBuilder {
    var count: U64
    var minStart: U32
    var maxEnd: U32
    var sumStart: U64
    var sumEnd: U64
    var xorSpan: U64

    constructor ()
      ensures Value() == NO_ROWS
    {
      count, minStart, maxEnd, sumStart, sumEnd, xorSpan := 0, 0, 0, 0, 0, 0;
    }

    function Value(): SourceStamp
      reads this
    {
      SourceStamp(count, minStart, maxEnd, sumStart, sumEnd, xorSpan)
    }

    method Add(start: U32, end: U32)
      modifies this
      ensures Value() == Added(old(Value()), (start, end))
    {
      if count == 0 {
        minStart := start;
        maxEnd := end;
      } else {
        if start < minStart {
          minStart := start;
        }
        if end > maxEnd {
          maxEnd := end;
        }
      }
      count := Wrap64(count + 1);
      sumStart := Wrap64(sumStart + start);
      sumEnd := Wrap64(sumEnd + end);
      xorSpan := Xor64(xorSpan, Span((start, end)));
    }
  }

  function RowOf(g: GeoRange): Row {
    (g.start, g.end)
  }

  method StampFromRanges(ranges: seq<GeoRange>) returns (s: SourceStamp)
    ensures s == StampOf(MapSeq(RowOf, ranges))
  {
    hide Added;
    var builder := new StampBuilder();
    var i := 0;
    while i < |ranges|
      invariant i <= |ranges| && fresh(builder)
      invariant builder.Value() == StampOf(MapSeq(RowOf, ranges[..i]))
    {
      var before, after := MapSeq(RowOf, ranges[..i]), MapSeq(RowOf, ranges[..i + 1]);
      assert after[..|after| - 1] == before && after[|after| - 1] == RowOf(ranges[i]);
      builder.Add(ranges[i].start, ranges[i].end);
      i := i + 1;
    }
    assert ranges[..i] == ranges;
    s := builder.Value();
  }

  // ---- what the fields say ----

  function SumOf(f: Row -> nat, rows: seq<Row>): nat {
    if rows == [] then 0 else SumOf(f, rows[..|rows| - 1]) + f(rows[|rows| - 1])
  }

  /** The aggregates a database would compute over the same rows. */
  ghost predicate Aggregates(rows: seq<Row>, s: SourceStamp) {
    s.count == |rows| &&
    (rows != [] ==> (exists k :: 0 <= k < |rows| && rows[k].0 == s.minStart) && exists k :: 0 <= k < |rows| && rows[k].1 == s.maxEnd) &&
    (forall k :: 0 <= k < |rows| ==> s.minStart <= rows[k].0 && rows[k].1 <= s.maxEnd) &&
    s.sumStart == Wrap64(SumOf((r: Row) => r.0, rows)) && s.sumEnd == Wrap64(SumOf((r: Row) => r.1, rows)) &&
    SpanParities(rows, s.xorSpan)
  }

  /** Each bit of x tells whether an odd number of the rows' spans have that bit. */
  ghost predicate SpanParities(rows: seq<Row>, x: U64) {
    forall k: nat :: Bits.Bit(x, k) == SumOf(SpanBit(k), rows) % 2
  }

  function SpanBit(k: nat): Row -> nat {
    (r: Row) => Bits.Bit(Span(r), k)
  }

  lemma ParitiesAdd(init: seq<Row>, last: Row, x: U64)
    requires SpanParities(init, x)
    ensures SpanParities(init + [last], Xor64(x, Span(last)))
  {
    hide Bits.Bit, Bits.Xor, Span;
    var rows := init + [last];
    assert rows[..|rows| - 1] == init;
    forall k: nat
      ensures Bits.Bit(Xor64(x, Span(last)), k) == SumOf(SpanBit(k), rows) % 2
    {
      Bits.BitOfXor(x, Span(last), k);
      assert SumOf(SpanBit(k), rows) == SumOf(SpanBit(k), init) + Bits.Bit(Span(last), k);
    }
  }

  lemma NoParities()
    ensures SpanParities([], 0)
  {
    forall k: nat
      ensures Bits.Bit(0, k) == 0
    {
      Bits.BitOfZero(k);
    }
  }

  /** The stamp of any list a machine can hold is its count, extremes, sums modulo 2^64 and parities. */
  lemma {:induction false} StampAggregates(rows: seq<Row>)
    requires |rows| < TWO64
    ensures Aggregates(rows, StampOf(rows))
  {
    hide SpanParities;
    if rows == [] {
      NoParities();
    } else {
      var init, last := rows[..|rows| - 1], rows[|rows| - 1];
      StampAggregates(init);
      assert rows == init + [last];
      AggregatesAdd(init, last, StampOf(init));
    }
  }

  lemma AggregatesAdd(init: seq<Row>, last: Row, s: SourceStamp)
    requires Aggregates(init, s) && |init| + 1 < TWO64
    ensures Aggregates(init + [last], Added(s, last))
  {
    var rows := init + [last];
    assert rows[..|rows| - 1] == init;
    assert Wrap64(|init| + 1) == |init| + 1;
    hide Xor64, Span, Wrap64, SpanParities;
    ParitiesAdd(init, last, s.xorSpan);
    SumAdds((r: Row) => r.0, init, last);
    SumAdds((r: Row) => r.1, init, last);
    ExtremesAdd(init, last, s);
  }

  lemma SumAdds(f: Row -> nat, init: seq<Row>, last: Row)
    ensures Wrap64(Wrap64(SumOf(f, init)) + f(last)) == Wrap64(SumOf(f, init + [last]))
  {
    var rows := init + [last];
    assert rows[..|rows| - 1] == init;
    WrapAdd(SumOf(f, init), f(last));
  }

  lemma ExtremesAdd(init: seq<Row>, last: Row, s: SourceStamp)
    requires Aggregates(init, s)
    ensures var t, rows := Added(s, last), init + [last];
      (exists k :: 0 <= k < |rows| && rows[k].0 == t.minStart) && (exists k :: 0 <= k < |rows| && rows[k].1 == t.maxEnd) &&
      forall k :: 0 <= k < |rows| ==> t.minStart <= rows[k].0 && rows[k].1 <= t.maxEnd
  {
    hide Xor64, Span, Wrap64;
    var t, rows := Added(s, last), init + [last];
    assert rows[|init|] == last;
    assert forall k :: 0 <= k < |init| ==> rows[k] == init[k];
    if t.minStart != last.0 {
      var k :| 0 <= k < |init| && init[k].0 == s.minStart;
      assert rows[k].0 == t.minStart;
    }
    if t.maxEnd != last.1 {
      var k :| 0 <= k < |init| && init[k].1 == s.maxEnd;
      assert rows[k].1 == t.maxEnd;
    }
  }

  // ---- order does not matter ----

  lemma SumsCommute(s: U64, a: U32, b: U32)
    ensures Wrap64(Wrap64(s + a) + b) == Wrap64(Wrap64(s + b) + a)
  {
    WrapAdd(s + a, b);
    WrapAdd(s + b, a);
  }

  lemma ExtremesCommute(first: bool, low: U32, high: U32, a: Row, b: Row)
    ensures Least(false, Least(first, low, a.0), b.0) == Least(false, Least(first, low, b.0), a.0)
    ensures Greatest(false, Greatest(first, high, a.1), b.1) == Greatest(false, Greatest(first, high, b.1), a.1)
  {
  }

  lemma XorsCommute(s: U64, x: U64, y: U64)
    ensures Xor64(Xor64(s, x), y) == Xor64(Xor64(s, y), x)
  {
    hide Bits.Xor;
    Bits.XorAssociates(s, x, y);
    Bits.XorAssociates(s, y, x);
    Bits.XorCommutes(x, y);
  }

  lemma NotEmptyAfter(s: SourceStamp, a: Row)
    requires s.count < TWO64 - 1
    ensures Added(s, a).count == s.count + 1
  {
    hide Span, Xor64, Least, Greatest;
  }

  lemma AddedCommutes(s: SourceStamp, a: Row, b: Row)
    requires s.count < TWO64 - 1
    ensures Added(Added(s, a), b) == Added(Added(s, b), a)
  {
    hide Span, Xor64, Wrap64, Least, Greatest;
    NotEmptyAfter(s, a);
    NotEmptyAfter(s, b);
    ExtremesCommute(s.count == 0, s.minStart, s.maxEnd, a, b);
    SumsCommute(s.sumStart, a.0, b.0);
    SumsCommute(s.sumEnd, a.1, b.1);
    XorsCommute(s.xorSpan, Span(a), Span(b));
  }

  lemma {:induction false} StampCount(rows: seq<Row>)
    requires |rows| < TWO64
    ensures StampOf(rows).count == |rows|
  {
    if rows != [] {
      StampCount(rows[..|rows| - 1]);
    }
  }

  lemma StampAppend(rows: seq<Row>, row: Row)
    ensures StampOf(rows + [row]) == Added(StampOf(rows), row)
  {
    assert (rows + [row])[..|rows|] == rows;
  }

  /** Any row may be taken as the last one. */
  lemma {:induction false} TakenLast(rows: seq<Row>, i: nat)
    requires i < |rows| < TWO64
    ensures StampOf(rows) == Added(StampOf(rows[..i] + rows[i + 1..]), rows[i])
    decreases |rows|
  {
    hide StampOf, Added;
    var init, last := rows[..|rows| - 1], rows[|rows| - 1];
    assert rows == init + [last];
    StampAppend(init, last);
    if i < |init| {
      TakenLast(init, i);
      var without := init[..i] + init[i + 1..];
      assert rows[..i] + rows[i + 1..] == without + [last];
      StampAppend(without, last);
      StampCount(without);
      AddedCommutes(StampOf(without), rows[i], last);
    } else {
      assert rows[..i] + rows[i + 1..] == init;
    }
  }

  /** The stamp does not depend on the order in which the rows arrive. */
  lemma {:induction false} StampIgnoresOrder(a: seq<Row>, b: seq<Row>)
    requires multiset(a) == multiset(b) && |a| < TWO64
    ensures StampOf(a) == StampOf(b)
    decreases |a|
  {
    hide Added, StampOf;
    assert |a| == |multiset(a)| == |multiset(b)| == |b|;
    if a == [] {
      assert b == [];
    } else {
      var i := MatchHead(a, b);
      var rest := b[..i] + b[i + 1..];
      StampIgnoresOrder(a[1..], rest);
      TakenLast(a, 0);
      assert a[..0] + a[1..] == a[1..];
      TakenLast(b, i);
    }
  }

  // ---- a changed row is noticed ----

  lemma SpanIsInjective(a: Row, b: Row)
    requires Span(a) == Span(b)
    ensures a == b
  {
    hide Span;
  }

  lemma XorCancels(s: U64, x: U64, y: U64)
    requires Xor64(s, x) == Xor64(s, y)
    ensures x == y
  {
    Bits.XorAssociates(s, s, x);
    Bits.XorAssociates(s, s, y);
    Bits.XorSelf(s);
  }

  /** Replacing any one row by a different one changes the stamp. */
  lemma ChangedRowIsNoticed(rows: seq<Row>, i: nat, row: Row)
    requires i < |rows| < TWO64
    ensures StampOf(rows) == StampOf(rows[i := row]) <==> rows[i] == row
  {
    var changed := rows[i := row];
    TakenLast(rows, i);
    TakenLast(changed, i);
    assert changed[..i] + changed[i + 1..] == rows[..i] + rows[i + 1..];
    assert rows[i] == row ==> changed == rows;
    if StampOf(rows) == StampOf(changed) {
      XorCancels(StampOf(rows[..i] + rows[i + 1..]).xorSpan, Span(rows[i]), Span(row));
      SpanIsInjective(rows[i], row);
    }
  }
}
