/** The query builder of the browser: rows of conditions printed as a search text. */
module SearchBuilder {
  import opened Common
  import opened Text
  import opened SearchLexer
  import opened SearchParser

  datatype Join = JoinAnd | JoinOr

  datatype Condition = Condition(negate: bool, field: Field, op: Op, value: string)

  datatype Row =
    | TermRow(join: Join, term: Condition)
    | GroupRow(join: Join, negate: bool, op: Join, children: seq<Condition>)

  function FieldName(f: Field): string {
    match f
    case All => "all"
    case Ip => "ip"
    case Port => "port"
    case Country => "country"
    case City => "city"
    case Action => "action"
    case Device => "device"
    case SrcIp => "src_ip"
    case DstIp => "dst_ip"
    case SrcPort => "src_port"
    case DstPort => "dst_port"
    case SrcCountry => "src_country"
    case DstCountry => "dst_country"
    case SrcCity => "src_city"
    case DstCity => "dst_city"
    case Src => "src"
    case Dst => "dst"
    case Proto => "proto"
    case Zone => "zone"
  }

  // ---- printing ----

  /** The characters that make the builder quote a value. */
  predicate NeedsQuotes(v: string) {
    exists k :: 0 <= k < |v| && (JsSpace(v[k]) || v[k] == '(' || v[k] == ')' || v[k] == '"' || v[k] == '\'')
  }

  function Replace(s: string, c: char, with: string): string {
    if s == "" then "" else (if s[0] == c then with else [s[0]]) + Replace(s[1..], c, with)
  }

  function Escape(v: string): string {
    Replace(Replace(v, '\\', "\\\\"), '"', "\\\"")
  }

  function QuoteValue(raw: string): string {
    var value := Trim(JsSpace, raw);
    if NeedsQuotes(value) then "\"" + Escape(value) + "\"" else value
  }

  function OpText(op: Op): string {
    match op
    case OpEq => "="
    case OpNe => "!="
    case OpContains => ":"
  }

  function PrintCondition(t: Condition): Option<string> {
    var value := Trim(JsSpace, t.value);
    if value == "" then None
    else
      var prefix := if t.field == All then "" else FieldName(t.field) + OpText(t.op);
      Some((if t.negate then "NOT " else "") + prefix + QuoteValue(value))
  }

  function JoinWith(sep: string, parts: seq<string>): string {
    if parts == [] then "" else if |parts| == 1 then parts[0] else parts[0] + sep + JoinWith(sep, parts[1..])
  }

  function PrintRow(row: Row): Option<string> {
    match row
    case TermRow(_, term) => PrintCondition(term)
    case GroupRow(_, negate, op, children) =>
      var inner := JoinWith(if op.JoinOr? then " OR " else " AND ", Present(PrintCondition, children));
      if inner == "" then None else Some((if negate then "NOT " else "") + "(" + inner + ")")
  }

  function JoinPrefix(j: Join): string {
    if j.JoinOr? then "OR " else "AND "
  }

  /** Every row but the first is printed after its join. */
  function PrintLaterRow(row: Row): Option<string> {
    match PrintRow(row) case None => None case Some(s) => Some(JoinPrefix(row.join) + s)
  }

  /** The whole search text of a list of rows; empty rows leave no text. */
  function Print(rows: seq<Row>): string {
    if rows == [] then ""
    else JoinWith(" ", Present(PrintRow, rows[..1]) + Present(PrintLaterRow, rows[1..]))
  }

  // ---- meaning ----

  type Values = map<Field, seq<string>>

  /** A field the record does not have has no values. */
  function FieldValues(record: Values, field: Field): seq<string> {
    if field in record then record[field] else []
  }

  ghost predicate SomeEqual(norm: string -> string, values: seq<string>, needle: string) {
    exists k :: 0 <= k < |values| && norm(values[k]) == needle
  }

  /** How one condition compares a record's values; norm is the normalisation of texts. */
  ghost predicate Matches(norm: string -> string, field: Field, op: Op, value: string, record: Values) {
    var values, needle := FieldValues(record, field), norm(value);
    needle == "" ||
    match op
    case OpEq => SomeEqual(norm, values, needle)
    case OpNe => forall k :: 0 <= k < |values| ==> norm(values[k]) != needle
    case OpContains => exists k :: 0 <= k < |values| && Includes(norm(values[k]), needle)
  }

  /** With something to look for: ne is the opposite of eq, and eq implies contains. */
  lemma OperatorsRelate(norm: string -> string, field: Field, value: string, record: Values)
    ensures norm(value) != "" ==>
      (Matches(norm, field, OpNe, value, record) <==> !Matches(norm, field, OpEq, value, record)) &&
      (Matches(norm, field, OpEq, value, record) ==> Matches(norm, field, OpContains, value, record))
    ensures norm(value) == "" ==> forall op :: Matches(norm, field, op, value, record)
  {
    if norm(value) != "" {
      var values, needle := FieldValues(record, field), norm(value);
      if SomeEqual(norm, values, needle) {
        var k :| 0 <= k < |values| && norm(values[k]) == needle;
        assert norm(values[k]) == "" + needle + "";
        assert Includes(norm(values[k]), needle);
      }
    }
  }

  ghost predicate Eval(norm: string -> string, ast: Ast, record: Values) {
    match ast
    case Term(field, op, value) => Matches(norm, field, op, value, record)
    case NotE(e) => !Eval(norm, e, record)
    case AndE(l, r) => Eval(norm, l, record) && Eval(norm, r, record)
    case OrE(l, r) => Eval(norm, l, record) || Eval(norm, r, record)
  }

  /** No query keeps every record. */
  ghost predicate EvalQuery(norm: string -> string, q: Option<Ast>, record: Values) {
    q.None? || Eval(norm, q.value, record)
  }

  predicate Live(t: Condition) {
    Trim(JsSpace, t.value) != ""
  }

  function LiveConditions(ts: seq<Condition>): seq<Condition> {
    Keep(Live, ts)
  }

  predicate LiveRow(row: Row) {
    match row
    case TermRow(_, term) => Live(term)
    case GroupRow(_, _, _, children) => LiveConditions(children) != []
  }

  function LiveRows(rows: seq<Row>): seq<Row> {
    Keep(LiveRow, rows)
  }

  /** A condition on the field "all" is always printed without its operator. */
  function EffectiveOp(t: Condition): Op {
    if t.field == All then OpContains else t.op
  }

  /** What the builder shows for one condition: NOT binds tightest. */
  ghost predicate ConditionTrue(norm: string -> string, t: Condition, record: Values) {
    t.negate != Matches(norm, t.field, EffectiveOp(t), Trim(JsSpace, t.value), record)
  }

  ghost predicate RowTrue(norm: string -> string, row: Row, record: Values) {
    match row
    case TermRow(_, term) => ConditionTrue(norm, term, record)
    case GroupRow(_, negate, op, children) =>
      var live := LiveConditions(children);
      negate !=
        if op.JoinOr? then exists k :: 0 <= k < |live| && ConditionTrue(norm, live[k], record)
        else forall k :: 0 <= k < |live| ==> ConditionTrue(norm, live[k], record)
  }

  /** Rows p..q form a maximal run joined by AND. */
  ghost predicate Segment(joins: seq<Join>, p: int, q: int) {
    0 <= p < q <= |joins| && (p == 0 || joins[p].JoinOr?) && (q == |joins| || joins[q].JoinOr?) &&
    forall k :: p < k < q ==> joins[k].JoinAnd?
  }

  ghost predicate SegmentTrue(joins: seq<Join>, bs: seq<bool>, p: int, q: int)
    requires |bs| == |joins|
  {
    Segment(joins, p, q) && forall k :: p <= k < q ==> bs[k]
  }

  function Joins(rows: seq<Row>): (r: seq<Join>)
    ensures |r| == |rows|
  {
    seq(|rows|, k requires 0 <= k < |rows| => rows[k].join)
  }

  ghost function Truths(norm: string -> string, rows: seq<Row>, record: Values): (r: seq<bool>)
    ensures |r| == |rows|
  {
    seq(|rows|, k requires 0 <= k < |rows| => RowTrue(norm, rows[k], record))
  }

  /** AND binds tighter than OR: some run of AND-joined rows is true throughout. Empty rows do not take part. */
  ghost predicate BuilderMeaning(norm: string -> string, rows: seq<Row>, record: Values) {
    var live := LiveRows(rows);
    live == [] || exists p, q :: SegmentTrue(Joins(live), Truths(norm, live, record), p, q)
  }

  // ---- when a printed value comes back as it was ----

  /** An unquoted value that is one word and no keyword. */
  predicate Plain(v: string) {
    WordLen(Browser, v) == |v| && Classify(v).Word?
  }

  predicate SafeCondition(names: Names, t: Condition) {
    var v := Trim(JsSpace, t.value);
    v == "" || NeedsQuotes(v) || (Plain(v) && (t.field == All ==> names.field(v).Some?))
  }

  predicate SafeRow(names: Names, row: Row) {
    match row
    case TermRow(_, term) => SafeCondition(names, term)
    case GroupRow(_, _, _, children) => forall k :: 0 <= k < |children| ==> SafeCondition(names, children[k])
  }

  /**
   * The condition an unsafe value on the field all is taken for: a field name, an
   * operator and one more word.
   */
  function Misread(names: Names, t: Condition): Option<Condition> {
    var v := Trim(JsSpace, t.value);
    var r := Lex(Browser, v);
    if t.field != All || NeedsQuotes(v) || !r.Tokens? || |r.ts| != 3 then None
    else if !r.ts[0].Word? || !IsOp(r.ts[1]) || !r.ts[2].Word? then None
    else
      var field := names.field(r.ts[0].value);
      if field.None? || field.value == All then None
      else Some(Condition(t.negate, field.value, OpOf(r.ts[1]), r.ts[2].value))
  }

  predicate IsOp(t: Token) {
    t.Colon? || t.Equals? || t.NotEquals?
  }

  /** The condition comes back, as itself or as another one. */
  predicate ReadableCondition(names: Names, t: Condition) {
    SafeCondition(names, t) || Misread(names, t).Some?
  }

  predicate ReadableRow(names: Names, row: Row) {
    match row
    case TermRow(_, term) => ReadableCondition(names, term)
    case GroupRow(_, _, _, children) => forall k :: 0 <= k < |children| ==> ReadableCondition(names, children[k])
  }

  ghost predicate KnowsFields(names: Names) {
    forall f :: names.field(FieldName(f)) == Some(f)
  }

  // ---- the tree a list of rows stands for ----

  function ConditionAst(t: Condition, v: string): Ast {
    var term := Term(t.field, EffectiveOp(t), v);
    if t.negate then NotE(term) else term
  }

  /**
   * One printed unit: the join before it, its text, its tokens and its tree.
   */
  datatype Item = Item(join: Join, text: string, toks: seq<Token>, ast: Ast)

  function Combine(outer: Option<Ast>, cur: Ast): Ast {
    if outer.None? then cur else OrE(outer.value, cur)
  }

  /** The left-leaning tree the parser builds: outer is what stands before the last OR. */
  function Fold(outer: Option<Ast>, cur: Ast, items: seq<Item>): Ast
    decreases |items|
  {
    if items == [] then Combine(outer, cur)
    else if items[0].join.JoinAnd? then Fold(outer, AndE(cur, items[0].ast), items[1..])
    else Fold(Some(Combine(outer, cur)), items[0].ast, items[1..])
  }

  function FoldAll(items: seq<Item>): Ast
    requires items != []
  {
    Fold(None, items[0].ast, items[1..])
  }

  function TailText(items: seq<Item>): string {
    if items == [] then "" else " " + JoinPrefix(items[0].join) + items[0].text + TailText(items[1..])
  }

  function ValueToken(v: string): Token {
    if NeedsQuotes(v) then Str(v) else Word(v)
  }

  function OpToken(op: Op): Token {
    match op
    case OpEq => Equals
    case OpNe => NotEquals
    case OpContains => Colon
  }

  function HeadTokens(t: Condition): seq<Token> {
    (if t.negate then [Not] else []) + (if t.field == All then [] else [Word(FieldName(t.field)), OpToken(t.op)])
  }

  function ConditionItem(join: Join, t: Condition): Item {
    var v := Trim(JsSpace, t.value);
    Item(join, PrintCondition(t).GetOr(""), HeadTokens(t) + [ValueToken(v)], ConditionAst(t, v))
  }

  function ConditionItems(op: Join, ts: seq<Condition>): seq<Item> {
    seq(|ts|, k requires 0 <= k < |ts| => ConditionItem(op, ts[k]))
  }

  function ItemsTokens(items: seq<Item>): seq<Token> {
    if items == [] then [] else [if items[0].join.JoinAnd? then And else Or] + items[0].toks + ItemsTokens(items[1..])
  }

  function RowItem(row: Row): Item {
    match row
    case TermRow(join, term) => ConditionItem(join, term)
    case GroupRow(join, negate, op, children) =>
      var items := ConditionItems(op, LiveConditions(children));
      if items == [] then Item(join, "", [], Term(All, OpContains, ""))
      else
        Item(join, PrintRow(row).GetOr(""),
          (if negate then [Not] else []) + [LParen] + items[0].toks + ItemsTokens(items[1..]) + [RParen],
          if negate then NotE(FoldAll(items)) else FoldAll(items))
  }

  function RowItems(rows: seq<Row>): seq<Item> {
    seq(|rows|, k requires 0 <= k < |rows| => RowItem(rows[k]))
  }

  // ---- the tree the browser makes of the printed rows ----

  function NotToken(negate: bool): seq<Token> {
    if negate then [Not] else []
  }

  /** The printed condition as it is read: itself when it is safe, or what it is taken for. */
  function SeenItem(names: Names, join: Join, t: Condition): Item {
    var it, other := ConditionItem(join, t), Misread(names, t);
    if SafeCondition(names, t) || other.None? then it
    else Item(join, it.text, NotToken(t.negate) + Lex(Browser, Trim(JsSpace, t.value)).ts, ConditionAst(other.value, other.value.value))
  }

  function SeenItems(names: Names, op: Join, ts: seq<Condition>): seq<Item> {
    seq(|ts|, k requires 0 <= k < |ts| => SeenItem(names, op, ts[k]))
  }

  function SeenRow(names: Names, row: Row): Item {
    match row
    case TermRow(join, term) => SeenItem(names, join, term)
    case GroupRow(join, negate, op, children) =>
      var items := SeenItems(names, op, LiveConditions(children));
      if items == [] then RowItem(row)
      else
        Item(join, PrintRow(row).GetOr(""),
          NotToken(negate) + [LParen] + items[0].toks + ItemsTokens(items[1..]) + [RParen],
          if negate then NotE(FoldAll(items)) else FoldAll(items))
  }

  function SeenRows(names: Names, rows: seq<Row>): seq<Item> {
    seq(|rows|, k requires 0 <= k < |rows| => SeenRow(names, rows[k]))
  }
}
