/** The tree read back from a printed query has the builder's boolean meaning. */
module SearchMeaning {
  import opened Common
  import opened Text
  import opened Lists
  import opened SearchLexer
  import opened SearchParser
  import opened SearchBuilder
  import opened SearchRoundTrip

  ghost function Bits(norm: string -> string, items: seq<Item>, record: Values): (r: seq<bool>)
    ensures |r| == |items|
  {
    seq(|items|, k requires 0 <= k < |items| => Eval(norm, items[k].ast, record))
  }

  function ItemJoins(items: seq<Item>): (r: seq<Join>)
    ensures |r| == |items|
  {
    seq(|items|, k requires 0 <= k < |items| => items[k].join)
  }

  /** Some run that ends at or before m is true throughout. */
  ghost predicate AnyTrue(joins: seq<Join>, bs: seq<bool>, m: int)
    requires |bs| == |joins|
  {
    exists p, q :: q <= m && SegmentTrue(joins, bs, p, q)
  }

  /** The run that starts at s and ends at e is the only one with its end in s+1..e. */
  lemma RunFrom(joins: seq<Join>, bs: seq<bool>, s: nat, e: nat)
    requires |bs| == |joins| && s < e <= |joins|
    requires s == 0 || joins[s].JoinOr?
    requires e == |joins| || joins[e].JoinOr?
    requires forall k :: s < k < e ==> joins[k].JoinAnd?
    ensures AnyTrue(joins, bs, e) <==> AnyTrue(joins, bs, s) || forall k :: s <= k < e ==> bs[k]
  {
    if forall k :: s <= k < e ==> bs[k] {
      assert SegmentTrue(joins, bs, s, e);
    }
    if AnyTrue(joins, bs, e) && !AnyTrue(joins, bs, s) {
      var p, q :| q <= e && SegmentTrue(joins, bs, p, q);
      assert q > s;
      assert p >= s;
      assert p == s && q == e;
    }
  }

  /** The parser's left-leaning tree over units 0..n, entered at unit i with run s..i in cur. */
  lemma {:induction false} FoldMeans(norm: string -> string, record: Values, items: seq<Item>, i: nat, s: nat, outer: Option<Ast>, cur: Ast)
    requires s < i <= |items| && (s == 0 || items[s].join.JoinOr?)
    requires forall k :: s < k < i ==> items[k].join.JoinAnd?
    requires Eval(norm, cur, record) <==> forall k :: s <= k < i ==> Bits(norm, items, record)[k]
    requires (outer.Some? && Eval(norm, outer.value, record)) <==> AnyTrue(ItemJoins(items), Bits(norm, items, record), s)
    ensures Eval(norm, Fold(outer, cur, items[i..]), record) <==>
      AnyTrue(ItemJoins(items), Bits(norm, items, record), |items|)
    decreases |items| - i
  {
    hide SegmentTrue, AnyTrue, Fold, Eval;
    var joins, bs := ItemJoins(items), Bits(norm, items, record);
    if i == |items| {
      RunFrom(joins, bs, s, i);
      FoldEnd(norm, record, outer, cur, items[i..]);
    } else {
      assert items[i..][0] == items[i] && items[i..][1..] == items[i + 1..];
      assert bs[i] <==> Eval(norm, items[i].ast, record);
      FoldStep(outer, cur, items[i..]);
      if items[i].join.JoinAnd? {
        AndMeans(norm, record, cur, items[i].ast);
        FoldMeans(norm, record, items, i + 1, s, outer, AndE(cur, items[i].ast));
      } else {
        RunFrom(joins, bs, s, i);
        CombineMeans(norm, record, outer, cur);
        FoldMeans(norm, record, items, i + 1, i, Some(Combine(outer, cur)), items[i].ast);
      }
    }
  }

  lemma FoldStep(outer: Option<Ast>, cur: Ast, items: seq<Item>)
    requires items != []
    ensures Fold(outer, cur, items) ==
      if items[0].join.JoinAnd? then Fold(outer, AndE(cur, items[0].ast), items[1..])
      else Fold(Some(Combine(outer, cur)), items[0].ast, items[1..])
  {
  }

  lemma FoldEnd(norm: string -> string, record: Values, outer: Option<Ast>, cur: Ast, items: seq<Item>)
    requires items == []
    ensures Eval(norm, Fold(outer, cur, items), record) <==>
      (outer.Some? && Eval(norm, outer.value, record)) || Eval(norm, cur, record)
  {
  }

  lemma AndMeans(norm: string -> string, record: Values, a: Ast, b: Ast)
    ensures Eval(norm, AndE(a, b), record) <==> Eval(norm, a, record) && Eval(norm, b, record)
  {
  }

  lemma CombineMeans(norm: string -> string, record: Values, outer: Option<Ast>, cur: Ast)
    ensures Eval(norm, Combine(outer, cur), record) <==>
      (outer.Some? && Eval(norm, outer.value, record)) || Eval(norm, cur, record)
  {
  }

  lemma FoldAllMeans(norm: string -> string, record: Values, items: seq<Item>)
    requires items != []
    ensures Eval(norm, FoldAll(items), record) <==>
      AnyTrue(ItemJoins(items), Bits(norm, items, record), |items|)
  {
    assert Bits(norm, items, record)[0] <==> Eval(norm, items[0].ast, record);
    FoldMeans(norm, record, items, 1, 0, None, items[0].ast);
  }

  /** Inside a group all joins are the same: all of the units, or some of them. */
  lemma GroupMeans(joins: seq<Join>, bs: seq<bool>, op: Join)
    requires |bs| == |joins| && |joins| > 0 && forall k :: 0 <= k < |joins| ==> joins[k] == op
    ensures AnyTrue(joins, bs, |joins|) <==>
      if op.JoinOr? then exists k :: 0 <= k < |bs| && bs[k] else forall k :: 0 <= k < |bs| ==> bs[k]
  {
    if op.JoinOr? {
      if k :| 0 <= k < |bs| && bs[k] {
        assert SegmentTrue(joins, bs, k, k + 1);
      }
      if AnyTrue(joins, bs, |joins|) {
        var p, q :| q <= |joins| && SegmentTrue(joins, bs, p, q);
        assert bs[p];
      }
    } else {
      RunFrom(joins, bs, 0, |joins|);
    }
  }

  lemma ConditionMeans(norm: string -> string, record: Values, op: Join, t: Condition)
    ensures Eval(norm, ConditionItem(op, t).ast, record) <==> ConditionTrue(norm, t, record)
  {
  }

  lemma GroupRowMeans(norm: string -> string, record: Values, op: Join, live: seq<Condition>)
    requires live != []
    ensures Eval(norm, FoldAll(ConditionItems(op, live)), record) <==>
      if op.JoinOr? then exists k :: 0 <= k < |live| && ConditionTrue(norm, live[k], record)
      else forall k :: 0 <= k < |live| ==> ConditionTrue(norm, live[k], record)
  {
    hide ConditionTrue, PrintCondition, FoldAll, AnyTrue;
    var items := ConditionItems(op, live);
    var bs := Bits(norm, items, record);
    FoldAllMeans(norm, record, items);
    GroupMeans(ItemJoins(items), bs, op);
    forall k | 0 <= k < |live|
      ensures bs[k] <==> ConditionTrue(norm, live[k], record)
    {
      ConditionMeans(norm, record, op, live[k]);
    }
    if op.JoinOr? {
      if k :| 0 <= k < |live| && ConditionTrue(norm, live[k], record) {
        assert bs[k];
      }
    }
  }

  lemma GroupAst(row: Row)
    requires row.GroupRow? && LiveRow(row)
    ensures LiveConditions(row.children) != []
    ensures var ast := FoldAll(ConditionItems(row.op, LiveConditions(row.children)));
      RowItem(row).ast == if row.negate then NotE(ast) else ast
  {
    hide PrintRow, FoldAll, ConditionItem;
  }

  lemma RowMeans(norm: string -> string, record: Values, row: Row)
    requires LiveRow(row)
    ensures Eval(norm, RowItem(row).ast, record) <==> RowTrue(norm, row, record)
  {
    hide PrintRow, PrintCondition, FoldAll, ConditionTrue, ConditionItem;
    match row
    case TermRow(join, term) => ConditionMeans(norm, record, join, term);
    case GroupRow(_, _, op, children) =>
      hide RowItem;
      GroupAst(row);
      GroupRowMeans(norm, record, op, LiveConditions(children));
  }

  /** The tree of the rows evaluates to what the builder shows. */
  lemma RowsMean(norm: string -> string, record: Values, rows: seq<Row>)
    ensures EvalQuery(norm, RowsAst(rows), record) <==> BuilderMeaning(norm, rows, record)
  {
    hide RowItem, LiveRow, PrintRow, RowTrue, FoldAll;
    var live := LiveRows(rows);
    var items := RowItems(live);
    if live != [] {
      FoldAllMeans(norm, record, items);
      forall k | 0 <= k < |live|
        ensures Bits(norm, items, record)[k] <==> Truths(norm, live, record)[k]
        ensures ItemJoins(items)[k] == Joins(live)[k]
      {
        LiveRowsAreRows(rows, k);
        RowMeans(norm, record, live[k]);
        RowIsPrinted(live[k]);
      }
      assert Bits(norm, items, record) == Truths(norm, live, record);
      assert ItemJoins(items) == Joins(live);
    }
  }

  // ---- trimming the text first ----

  lemma {:induction false} QuotedTrailingSpace(s: string, c: char)
    requires JsSpace(c)
    ensures ReadQuoted(s + [c]) == match ReadQuoted(s) case Open => Open case Closed(v, rest) => Closed(v, rest + [c])
    decreases |s|
  {
    var t := s + [c];
    if s == "" {
      assert t[1..] == "";
    } else {
      assert t[1..] == s[1..] + [c];
      QuotedTrailingSpace(s[1..], c);
      if s[0] == '\\' {
        if |s| == 1 {
          assert t[2..] == "";
        } else {
          assert t[2..] == s[2..] + [c];
          QuotedTrailingSpace(s[2..], c);
        }
      }
    }
  }

  lemma {:induction false} WordLenTrailing(s: string, c: char)
    requires JsSpace(c)
    ensures WordLen(Browser, s + [c]) == WordLen(Browser, s)
  {
    if s != "" {
      assert (s + [c])[1..] == s[1..] + [c];
      WordLenTrailing(s[1..], c);
    }
  }

  lemma {:induction false} ReadTrailingSpace(s: string, c: char)
    requires JsSpace(c)
    ensures Read(s + [c]) == Read(s)
    decreases |s|
  {
    hide Lex;
    if s == "" {
      SpaceOnly(c);
    } else {
      assert s + [c] == [s[0]] + (s[1..] + [c]);
      ReadTrailingSpace(s[1..], c);
      if s[0] == '"' {
        var q := ReadQuoted(s[1..]);
        if q.Closed? {
          ReadTrailingSpace(q.rest, c);
        }
        QuotedThenSpace(s, c);
      } else if s[0] == '!' {
        if |s| > 1 {
          ReadTrailingSpace(s[2..], c);
        }
        BangThenSpace(s, c);
      } else if EndsWord(Browser, s[0]) {
        SymbolThenSpace(s, c);
      } else {
        ReadTrailingSpace(s[WordLen(Browser, s)..], c);
        WordThenSpace(s, c);
      }
    }
  }

  lemma SpaceOnly(c: char)
    requires JsSpace(c)
    ensures Read("" + [c]) == Read("")
  {
    assert "" + [c] == [c] && [c][1..] == "";
  }

  lemma QuotedThenSpace(s: string, c: char)
    requires JsSpace(c) && s != "" && s[0] == '"'
    requires var q := ReadQuoted(s[1..]); q.Closed? ==> Read(q.rest + [c]) == Read(q.rest)
    ensures Read(s + [c]) == Read(s)
  {
    assert (s + [c])[1..] == s[1..] + [c];
    QuotedTrailingSpace(s[1..], c);
    hide ReadQuoted, WordLen;
  }

  lemma BangThenSpace(s: string, c: char)
    requires JsSpace(c) && s != "" && s[0] == '!' && (|s| > 1 ==> Read(s[2..] + [c]) == Read(s[2..]))
    ensures Read(s + [c]) == Read(s)
  {
    hide ReadQuoted, WordLen;
    var t := s + [c];
    assert t[0] == s[0];
    if |s| > 1 {
      assert t[1] == s[1] && t[2..] == s[2..] + [c];
    }
  }

  lemma SymbolThenSpace(s: string, c: char)
    requires JsSpace(c) && s != "" && s[0] != '"' && s[0] != '!' && EndsWord(Browser, s[0])
    requires Read(s[1..] + [c]) == Read(s[1..])
    ensures Read(s + [c]) == Read(s)
  {
    hide ReadQuoted, WordLen;
    assert (s + [c])[1..] == s[1..] + [c];
  }

  lemma WordThenSpace(s: string, c: char)
    requires JsSpace(c) && s != "" && !EndsWord(Browser, s[0])
    requires var n := WordLen(Browser, s); Read(s[n..] + [c]) == Read(s[n..])
    ensures Read(s + [c]) == Read(s)
  {
    WordLenTrailing(s, c);
    hide ReadQuoted, WordLen, Classify;
    var t, n := s + [c], WordLen(Browser, s);
    assert t[0] == s[0] && t[..n] == s[..n] && t[n..] == s[n..] + [c];
  }

  lemma {:induction false} ReadTrimRight(s: string)
    ensures Read(TrimRight(JsSpace, s)) == Read(s)
    decreases |s|
  {
    hide Lex;
    if s != "" && JsSpace(s[|s| - 1]) {
      ReadTrimRight(s[..|s| - 1]);
      assert s == s[..|s| - 1] + [s[|s| - 1]];
      ReadTrailingSpace(s[..|s| - 1], s[|s| - 1]);
    }
  }

  lemma {:induction false} ReadTrimLeft(s: string)
    ensures Read(TrimLeft(JsSpace, s)) == Read(s)
  {
    if s != "" && JsSpace(s[0]) {
      ReadTrimLeft(s[1..]);
    }
  }

  /** Trimming the text before reading it changes nothing. */
  lemma ReadTrim(s: string)
    ensures Read(Trim(JsSpace, s)) == Read(s)
  {
    ReadTrimLeft(s);
    ReadTrimRight(TrimLeft(JsSpace, s));
  }

  // ---- the main results ----

  /** parseSearchQuery of the browser. */
  method ParseSearchQuery(names: Names, raw: string) returns (r: Result<Option<Ast>, ParseError>)
    ensures r == ParseLexed(names, Lex(Browser, raw))
  {
    ReadTrim(raw);
    r := ParseQuery(Browser, names, Trim(JsSpace, raw));
  }

  /**
   * The browser reads a printed query back as the rows' own tree exactly when they are
   * acceptable, and then on every record the query answers what the builder shows.
   */
  lemma BuilderRoundTrip(names: Names, norm: string -> string, rows: seq<Row>, record: Values)
    requires KnowsFields(names)
    ensures ParsePrinted(names, rows) == Success(RowsAst(rows)) <==> Acceptable(names, rows)
    ensures Acceptable(names, rows) ==>
      (EvalQuery(norm, ParsePrinted(names, rows).value, record) <==> BuilderMeaning(norm, rows, record))
  {
    hide ParsePrinted, Acceptable, RowsAst, BuilderMeaning;
    RoundTrip(names, rows);
    RowsMean(norm, record, rows);
  }

  /** The server builds the same tree as the browser from every acceptable printed query. */
  lemma ServerReadsTheSame(browser: Names, server: Names, rows: seq<Row>)
    requires KnowsFields(browser) && KnowsFields(server)
    requires Acceptable(browser, rows) && Acceptable(server, rows) && SameSpaces(Print(rows))
    ensures ParseLexed(server, Lex(Server, Print(rows))) == ParsePrinted(browser, rows)
  {
    hide Acceptable, RowsAst, Lex, BareBang;
    RoundTrip(browser, rows);
    RoundTrip(server, rows);
    StuckExactly(Print(rows));
    DialectsAgree(Print(rows));
  }

  lemma ReadFieldText(f: Field, op: Op, w: string)
    requires w != "" && Plain(w)
    ensures Read(FieldName(f) + OpText(op) + w) == Tokens([Word(FieldName(f)), OpToken(op), Word(w)])
  {
    ReadField(f, op, w);
    ReadWord(w, "");
    assert w + "" == w;
    assert [Word(FieldName(f)), OpToken(op)] + [Word(w)] == [Word(FieldName(f)), OpToken(op), Word(w)];
  }

  lemma ParseFieldText(names: Names, f: Field, op: Op, w: string)
    requires KnowsFields(names) && f != All && !NeedsQuotes(w)
    ensures ParseTokens(names, [Word(FieldName(f)), OpToken(op), Word(w)]) == Success(Some(Term(f, op, w)))
  {
    var ts := [Word(FieldName(f)), OpToken(op), Word(w)];
    assert ts + [] == ts;
    ParseFieldCondition(names, Condition(false, f, op, w), w, []);
    ParseOrLoops(names, ts);
  }

  lemma Unquoted(v: string)
    requires Trimmed(JsSpace, v) && !NeedsQuotes(v)
    ensures QuoteValue(v) == v
  {
  }

  lemma BareText(t: Condition, v: string)
    requires t.field == All && !t.negate && v == Trim(JsSpace, t.value) && v != "" && QuoteValue(v) == v
    ensures Live(t) && PrintCondition(t) == Some(v)
  {
    hide QuoteValue;
    ConditionText(t);
    assert PrefixText(t) + v == v;
  }

  /** An unquoted condition on all fields is printed as its bare value. */
  lemma PrintBare(join: Join, t: Condition, v: string)
    requires t.field == All && !t.negate && v == Trim(JsSpace, t.value) && v != "" && QuoteValue(v) == v
    ensures Print([TermRow(join, t)]) == v
    ensures RowsAst([TermRow(join, t)]) == Some(Term(All, OpContains, v))
  {
    hide NeedsQuotes, QuoteValue, PrintCondition, Print, ListText, FoldAll, Trim;
    BareText(t, v);
    var row := TermRow(join, t);
    PrintedFirst(row, []);
    assert [row] + [] == [row];
    SingleItem(RowItems([row]));
  }

  lemma SingleItem(items: seq<Item>)
    requires |items| == 1
    ensures ListText(items) == items[0].text && FoldAll(items) == items[0].ast
  {
    assert items[1..] == [];
    assert items[0].text + "" == items[0].text;
  }

  /**
   * Why conditions on the field "all" need care: their field is not printed, so any
   * value that reads like a condition on another field becomes one.
   */
  lemma AllFieldIsAmbiguous(names: Names, join: Join, f: Field, op: Op, w: string)
    requires KnowsFields(names) && f != All && w != "" && Plain(w) && !NeedsQuotes(w)
    requires var v := FieldName(f) + OpText(op) + w; Trimmed(JsSpace, v) && !NeedsQuotes(v)
    ensures
      var row := TermRow(join, Condition(false, All, OpContains, FieldName(f) + OpText(op) + w));
      ParsePrinted(names, [row]) == Success(Some(Term(f, op, w))) &&
      RowsAst([row]) == Some(Term(All, OpContains, FieldName(f) + OpText(op) + w))
  {
    hide Print, NeedsQuotes, RowsAst, Lex, FieldName, OpText, Trim, Plain, QuoteValue, ParseTokens;
    var v := FieldName(f) + OpText(op) + w;
    assert v != "";
    Unquoted(v);
    PrintBare(join, Condition(false, All, OpContains, v), v);
    ReadFieldText(f, op, w);
    ParseFieldText(names, f, op, w);
  }

  // ---- what printed rows are taken for ----

  /** Every word of the browser's tokens is trimmed and not empty. */
  predicate WordsTrimmed(ts: seq<Token>) {
    forall i :: 0 <= i < |ts| && ts[i].Word? ==> ts[i].value != "" && Trim(JsSpace, ts[i].value) == ts[i].value
  }

  lemma {:induction false} LexWords(s: string)
    ensures Read(s).Tokens? ==> WordsTrimmed(Read(s).ts)
    decreases |s|
  {
    hide Trim, NeedsQuotes;
    if s != "" {
      if IsSpace(Browser, s[0]) || s[0] == '(' || s[0] == ')' || s[0] == ':' || s[0] == '=' {
        LexWords(s[1..]);
      } else if s[0] == '!' {
        if |s| > 1 && s[1] == '=' {
          LexWords(s[2..]);
        }
      } else if s[0] == '"' {
        if ReadQuoted(s[1..]).Closed? {
          LexWords(ReadQuoted(s[1..]).rest);
        }
      } else {
        var n := WordLen(Browser, s);
        WordIsTrimmed(s, n);
        LexWords(s[n..]);
      }
    }
  }

  lemma WordIsTrimmed(s: string, n: nat)
    requires 0 < n == WordLen(Browser, s)
    ensures s[..n] != "" && Trim(JsSpace, s[..n]) == s[..n]
  {
    assert !EndsWord(Browser, s[0]) && !EndsWord(Browser, s[n - 1]);
    assert Trimmed(JsSpace, s[..n]);
  }

  /** The condition that the printed one is taken for. */
  function SeenCondition(names: Names, t: Condition): Condition {
    if SafeCondition(names, t) then t else Misread(names, t).GetOr(t)
  }

  function AsSeen(names: Names, row: Row): Row {
    match row
    case TermRow(join, term) => TermRow(join, SeenCondition(names, term))
    case GroupRow(join, negate, op, children) => GroupRow(join, negate, op, AsSeenConditions(names, children))
  }

  function AsSeenConditions(names: Names, ts: seq<Condition>): seq<Condition> {
    MapSeq((t: Condition) => SeenCondition(names, t), ts)
  }

  function AsSeenRows(names: Names, rows: seq<Row>): seq<Row> {
    MapSeq((row: Row) => AsSeen(names, row), rows)
  }

  lemma SeenIsLive(names: Names, t: Condition)
    ensures Live(SeenCondition(names, t)) <==> Live(t)
  {
    hide Lex, NeedsQuotes, Plain, Trim;
    LexWords(Trim(JsSpace, t.value));
  }

  lemma SeenAstIsOwn(names: Names, j: Join, t: Condition)
    ensures SeenItem(names, j, t).ast == ConditionItem(j, SeenCondition(names, t)).ast
  {
    hide Lex, NeedsQuotes, Plain, Trim, SafeCondition, PrintCondition;
    LexWords(Trim(JsSpace, t.value));
  }

  lemma SeenLiveConditions(names: Names, ts: seq<Condition>)
    ensures LiveConditions(AsSeenConditions(names, ts)) == AsSeenConditions(names, LiveConditions(ts))
  {
    hide Live, SeenCondition, Keep;
    forall t
      ensures Live(SeenCondition(names, t)) <==> Live(t)
    {
      SeenIsLive(names, t);
    }
    KeepMap((t: Condition) => SeenCondition(names, t), Live, Live, ts);
  }

  lemma SeenRowAst(names: Names, row: Row)
    ensures LiveRow(AsSeen(names, row)) <==> LiveRow(row)
    ensures LiveRow(row) ==> SeenRow(names, row).ast == RowItem(AsSeen(names, row)).ast
    ensures SeenRow(names, row).join == RowItem(AsSeen(names, row)).join
  {
    hide SeenItem, ConditionItem, SeenCondition, Live, PrintRow, LiveConditions, FoldAll, ItemsTokens;
    match row
    case TermRow(join, term) =>
      SeenIsLive(names, term);
      SeenAstIsOwn(names, join, term);
      SeenJoins(names, join, term);
    case GroupRow(_, _, op, children) =>
      SeenLiveConditions(names, children);
      if LiveRow(row) {
        SeenGroupAst(names, op, LiveConditions(children));
      }
  }

  lemma SeenJoins(names: Names, join: Join, t: Condition)
    ensures SeenItem(names, join, t).join == join && ConditionItem(join, SeenCondition(names, t)).join == join
  {
    hide Lex, NeedsQuotes, Plain, Trim, SafeCondition, PrintCondition, Misread;
  }

  lemma SeenGroupAst(names: Names, op: Join, ts: seq<Condition>)
    requires ts != []
    ensures FoldAll(SeenItems(names, op, ts)) == FoldAll(ConditionItems(op, AsSeenConditions(names, ts)))
  {
    hide SeenItem, ConditionItem, SeenCondition, FoldAll;
    var a, b := SeenItems(names, op, ts), ConditionItems(op, AsSeenConditions(names, ts));
    forall k | 0 <= k < |ts|
      ensures a[k].ast == b[k].ast && a[k].join == b[k].join
    {
      SeenAstIsOwn(names, op, ts[k]);
      SeenJoins(names, op, ts[k]);
    }
    SameTree(a, b);
  }

  lemma SeenLiveRows(names: Names, rows: seq<Row>)
    ensures LiveRows(AsSeenRows(names, rows)) == AsSeenRows(names, LiveRows(rows))
  {
    hide LiveRow, AsSeen, Keep;
    forall row
      ensures LiveRow(AsSeen(names, row)) <==> LiveRow(row)
    {
      SeenRowAst(names, row);
    }
    KeepMap((row: Row) => AsSeen(names, row), LiveRow, LiveRow, rows);
  }

  /** The tree the browser makes is that of the rows with each condition as it is taken. */
  lemma SeenTreeIsOwn(names: Names, rows: seq<Row>)
    ensures SeenAst(names, rows) == RowsAst(AsSeenRows(names, rows))
  {
    hide SeenRow, RowItem, AsSeen, LiveRows, FoldAll, LiveRow;
    SeenLiveRows(names, rows);
    var live := LiveRows(rows);
    if live != [] {
      var a, b := SeenRows(names, live), RowItems(AsSeenRows(names, live));
      forall k | 0 <= k < |live|
        ensures a[k].ast == b[k].ast && a[k].join == b[k].join
      {
        LiveRowsAreRows(rows, k);
        SeenRowAst(names, live[k]);
      }
      SameTree(a, b);
    }
  }

  /**
   * Every printed query that is accepted at all answers, on every record, what the
   * builder shows for the rows in which each misread condition is what it is taken for.
   */
  lemma AcceptedMeaning(names: Names, norm: string -> string, rows: seq<Row>, record: Values)
    requires KnowsFields(names) && ParsePrinted(names, rows).Success?
    ensures ParsePrinted(names, rows).value == RowsAst(AsSeenRows(names, rows))
    ensures EvalQuery(norm, ParsePrinted(names, rows).value, record) <==> BuilderMeaning(norm, AsSeenRows(names, rows), record)
  {
    hide ParsePrinted, SeenAst, RowsAst, AsSeenRows, BuilderMeaning, Readable;
    ReadBack(names, rows);
    SeenTreeIsOwn(names, rows);
    RowsMean(norm, record, AsSeenRows(names, rows));
  }
}
