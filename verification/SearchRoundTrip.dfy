/**
 * Printing builder rows and reading them back: the text is read as the rows' own
 * tree exactly when its conditions are safe.
 */
module SearchRoundTrip {
  import opened Common
  import opened Text
  import opened SearchLexer
  import opened SearchParser
  import opened SearchBuilder

  // ---- reading printed pieces of text ----

  predicate Boundary(rest: string) {
    rest == "" || rest[0] == ' ' || rest[0] == ')'
  }

  function Read(s: string): Lexed {
    Lex(Browser, s)
  }

  lemma {:induction false} WordLenOf(w: string, rest: string)
    requires forall k :: 0 <= k < |w| ==> !EndsWord(Browser, w[k])
    requires rest == "" || EndsWord(Browser, rest[0])
    ensures WordLen(Browser, w + rest) == |w|
  {
    if w == "" {
      assert w + rest == rest;
    } else {
      assert (w + rest)[1..] == w[1..] + rest;
      WordLenOf(w[1..], rest);
    }
  }

  lemma ReadWord(w: string, rest: string)
    requires w != "" && forall k :: 0 <= k < |w| ==> !EndsWord(Browser, w[k])
    requires rest == "" || EndsWord(Browser, rest[0])
    ensures Read(w + rest) == Prepend([Classify(w)], Read(rest))
  {
    WordLenOf(w, rest);
    var s := w + rest;
    assert s[0] == w[0] && !EndsWord(Browser, s[0]);
    assert s[..|w|] == w && s[|w|..] == rest;
  }

  lemma ReadSpace(rest: string)
    ensures Read(" " + rest) == Read(rest)
  {
    assert (" " + rest)[1..] == rest;
  }

  lemma ReadSymbol(c: char, rest: string)
    requires c == '(' || c == ')' || c == ':' || c == '='
    ensures Read([c] + rest) == Prepend([Symbol(c)], Read(rest))
  {
    assert ([c] + rest)[1..] == rest;
  }

  lemma ReadOp(op: Op, rest: string)
    ensures Read(OpText(op) + rest) == Prepend([OpToken(op)], Read(rest))
  {
    match op
    case OpEq => ReadSymbol('=', rest);
    case OpContains => ReadSymbol(':', rest);
    case OpNe =>
      var s := "!=" + rest;
      assert s[0] == '!' && s[1] == '=' && s[2..] == rest;
  }

  lemma {:induction false} ReplaceCons(s: string, c: char, with: string, x: char)
    ensures Replace([x] + s, c, with) == (if x == c then with else [x]) + Replace(s, c, with)
  {
    assert ([x] + s)[1..] == s;
  }

  /** Escaping works character by character. */
  lemma {:induction false} EscapeCons(x: char, v: string)
    ensures Escape([x] + v) == (if x == '\\' || x == '"' then ['\\', x] else [x]) + Escape(v)
  {
    var inner := Replace(v, '\\', "\\\\");
    ReplaceCons(v, '\\', "\\\\", x);
    if x == '\\' {
      assert "\\\\" + inner == ['\\'] + (['\\'] + inner);
      ReplaceCons(['\\'] + inner, '"', "\\\"", '\\');
      ReplaceCons(inner, '"', "\\\"", '\\');
      assert ['\\'] + (['\\'] + Escape(v)) == ['\\', x] + Escape(v);
    } else {
      ReplaceCons(inner, '"', "\\\"", x);
      assert x == '"' ==> "\\\"" == ['\\', x];
    }
  }

  /** The tokenizer undoes the escaping. */
  lemma {:induction false} ReadQuotedEscaped(v: string, rest: string)
    ensures ReadQuoted(Escape(v) + "\"" + rest) == Closed(v, rest)
  {
    if v == "" {
      assert Escape(v) == "";
      var s := "\"" + rest;
      assert Escape(v) + "\"" + rest == s;
      assert s[0] == '"' && s[1..] == rest;
    } else {
      var x, w := v[0], v[1..];
      var tail := Escape(w) + "\"" + rest;
      assert v == [x] + w;
      EscapeCons(x, w);
      ReadQuotedEscaped(w, rest);
      var s := Escape(v) + "\"" + rest;
      if x == '\\' || x == '"' {
        assert s == ['\\', x] + tail;
        assert s[0] == '\\' && s[1] == x && s[2..] == tail;
      } else {
        assert s == [x] + tail;
        assert s[0] == x && s[1..] == tail;
      }
      assert [x] + w == v;
    }
  }

  lemma ReadQuoteChar(body: string)
    ensures Read("\"" + body) ==
      match ReadQuoted(body) case Open => Unclosed case Closed(v, rest) => Prepend([Str(v)], Read(rest))
  {
    var s := "\"" + body;
    assert s[0] == '"' && s[1..] == body;
  }

  lemma QuotedText(v: string, rest: string)
    requires v == Trim(JsSpace, v) && NeedsQuotes(v)
    ensures QuoteValue(v) + rest == "\"" + (Escape(v) + "\"" + rest)
  {
    hide Escape, NeedsQuotes, Trim;
  }

  lemma ReadQuotedValue(v: string, rest: string)
    requires v == Trim(JsSpace, v) && NeedsQuotes(v)
    ensures Read(QuoteValue(v) + rest) == Prepend([Str(v)], Read(rest))
  {
    hide Read, ReadQuoted, Escape, NeedsQuotes, QuoteValue, Trim;
    QuotedText(v, rest);
    ReadQuotedEscaped(v, rest);
    ReadQuoteChar(Escape(v) + "\"" + rest);
  }

  /** An unquoted value has none of the characters that would have it quoted. */
  lemma UnquotedChars(v: string)
    requires !NeedsQuotes(v)
    ensures forall k :: 0 <= k < |v| ==> (EndsWord(Browser, v[k]) <==> v[k] == ':' || v[k] == '=' || v[k] == '!')
  {
  }

  lemma ReadSafeValue(v: string, rest: string)
    requires v != "" && v == Trim(JsSpace, v) && (NeedsQuotes(v) || Plain(v)) && Boundary(rest)
    ensures Read(QuoteValue(v) + rest) == Prepend([ValueToken(v)], Read(rest))
  {
    if NeedsQuotes(v) {
      ReadQuotedValue(v, rest);
    } else {
      ReadWord(v, rest);
    }
  }

  /** Tokens that cannot be a single value: a keyword or an operator first, or an operator right after a word. */
  predicate NoValue(ts: seq<Token>) {
    ts != [] &&
    (IsOp(ts[0]) || ts[0].And? || ts[0].Or? || ts[0].Not? || (ts[0].Word? && |ts| > 1 && IsOp(ts[1])))
  }

  lemma ReadOpChar(s: string)
    requires s != "" && (s[0] == ':' || s[0] == '=' || s[0] == '!')
    ensures Read(s).Tokens? ==> Read(s).ts != [] && IsOp(Read(s).ts[0])
  {
  }

  lemma ReadUnsafeValue(v: string, rest: string)
    requires v != "" && !NeedsQuotes(v) && !Plain(v) && Boundary(rest)
    ensures Read(v + rest).Tokens? ==> NoValue(Read(v + rest).ts)
  {
    UnquotedChars(v);
    var n := WordLen(Browser, v);
    var w, u := v[..n], v[n..] + rest;
    assert v + rest == w + u;
    if n == 0 {
      assert w + u == u;
      ReadOpChar(u);
    } else {
      ReadWord(w, u);
      if n < |v| {
        ReadOpChar(u);
      } else {
        assert w == v;
      }
    }
  }

  lemma {:induction false} UpperAt(s: string, k: nat)
    requires k < |s|
    ensures UpperAscii(s)[k] == UpperAsciiChar(s[k])
  {
    if k > 0 {
      UpperAt(s[1..], k - 1);
    }
  }

  lemma FieldNameChars(f: Field)
    ensures forall k :: 0 <= k < |FieldName(f)| ==> !EndsWord(Browser, FieldName(f)[k])
  {
    var name := FieldName(f);
    assert forall k :: 0 <= k < |name| ==> 'a' <= name[k] <= 'z' || name[k] == '_';
  }

  lemma NoKeyword(name: string)
    requires |name| >= 2 && 'a' <= name[0] <= 'z' && name[0] != 'n' && name[0] != 'o'
    requires name[1] != 'n' && name[1] != 'N'
    ensures Classify(name) == Word(name)
  {
    UpperAt(name, 0);
    UpperAt(name, 1);
  }

  lemma FieldNameLead(f: Field)
    ensures var name := FieldName(f);
      |name| >= 2 && 'a' <= name[0] <= 'z' && name[0] != 'n' && name[0] != 'o' && name[1] != 'n' && name[1] != 'N'
  {
  }

  lemma ReadField(f: Field, op: Op, rest: string)
    ensures Read(FieldName(f) + OpText(op) + rest) == Prepend([Word(FieldName(f)), OpToken(op)], Read(rest))
  {
    var name, u := FieldName(f), OpText(op) + rest;
    FieldNameChars(f);
    FieldNameLead(f);
    NoKeyword(name);
    assert name + OpText(op) + rest == name + u;
    ReadWord(name, u);
    ReadOp(op, rest);
    PrependTwice([Word(name)], [OpToken(op)], Read(rest));
    assert [Word(name)] + [OpToken(op)] == [Word(name), OpToken(op)];
  }

  lemma ReadNegation(negate: bool, rest: string)
    ensures Read((if negate then "NOT " else "") + rest) == Prepend(if negate then [Not] else [], Read(rest))
  {
    if negate {
      ReadNot(rest);
    } else {
      assert "" + rest == rest;
      NoTokens(Read(rest));
    }
  }

  lemma ReadHead(t: Condition, rest: string)
    ensures Read(PrefixText(t) + rest) == Prepend(HeadTokens(t), Read(rest))
  {
    var u := (if t.field == All then "" else FieldName(t.field) + OpText(t.op)) + rest;
    assert PrefixText(t) + rest == (if t.negate then "NOT " else "") + u;
    ReadNegation(t.negate, u);
    var not := if t.negate then [Not] else [];
    var field := if t.field == All then [] else [Word(FieldName(t.field)), OpToken(t.op)];
    if t.field == All {
      assert u == rest;
      NoTokens(Read(rest));
    } else {
      ReadField(t.field, t.op, rest);
    }
    PrependTwice(not, field, Read(rest));
  }

  lemma NoTokens(r: Lexed)
    ensures Prepend([], r) == r
  {
  }

  lemma ReadNot(rest: string)
    ensures Read("NOT " + rest) == Prepend([Not], Read(rest))
  {
    assert "NOT " + rest == "NOT" + (" " + rest);
    assert UpperAscii("NOT") == "NOT" by {
      assert "NOT"[1..] == "OT" && "OT"[1..] == "T" && "T"[1..] == "";
    }
    ReadWord("NOT", " " + rest);
    ReadSpace(rest);
  }

  lemma ReadJoin(j: Join, rest: string)
    ensures Read(JoinPrefix(j) + rest) == Prepend([if j.JoinAnd? then And else Or], Read(rest))
  {
    var word := if j.JoinAnd? then "AND" else "OR";
    assert JoinPrefix(j) + rest == word + (" " + rest);
    assert UpperAscii("AND") == "AND" by {
      assert "AND"[1..] == "ND" && "ND"[1..] == "D" && "D"[1..] == "";
    }
    assert UpperAscii("OR") == "OR" by {
      assert "OR"[1..] == "R" && "R"[1..] == "";
    }
    ReadWord(word, " " + rest);
    ReadSpace(rest);
  }

  // ---- good and bad units ----

  predicate Follow(ts: seq<Token>) {
    ts == [] || ts[0].And? || ts[0].Or? || ts[0].RParen?
  }

  /** A parse that failed, or stopped in front of an operator nothing will accept. */
  predicate Doomed(p: Parsed) {
    p.Err? || (p.rest != [] && IsOp(p.rest[0]))
  }

  ghost predicate TextGood(it: Item) {
    forall rest: string | Boundary(rest) :: Read(it.text + rest) == Prepend(it.toks, Read(rest))
  }

  ghost predicate ToksGood(names: Names, it: Item) {
    forall rest: seq<Token> | Follow(rest) :: ParseUnary(names, it.toks + rest) == Ok(it.ast, rest)
  }

  /** The unit reads and parses as itself, whatever follows it. */
  ghost predicate Good(names: Names, it: Item) {
    TextGood(it) && ToksGood(names, it)
  }

  /** What follows a unit: the end, the next unit or a closing parenthesis. */
  ghost predicate Ends(rest: string) {
    Boundary(rest) && (Read(rest).Tokens? ==> Follow(Read(rest).ts))
  }

  /** The unit spoils the query, whatever follows it. */
  ghost predicate Bad(names: Names, it: Item) {
    forall rest: string | Ends(rest) ::
      Read(it.text + rest).Tokens? ==> Spoils(names, Read(it.text + rest).ts)
  }

  predicate Spoils(names: Names, ts: seq<Token>) {
    ts != [] && Doomed(ParseUnary(names, ts))
  }

  lemma ParseFieldCondition(names: Names, t: Condition, v: string, rest: seq<Token>)
    requires KnowsFields(names) && t.field != All
    ensures ParsePrimary(names, [Word(FieldName(t.field)), OpToken(t.op), ValueToken(v)] + rest) ==
      Ok(Term(t.field, t.op, v), rest)
  {
    var from := [Word(FieldName(t.field)), OpToken(t.op), ValueToken(v)] + rest;
    var tail := from[1..];
    assert tail == [OpToken(t.op), ValueToken(v)] + rest;
    assert tail[2..] == rest && tail[1] == ValueToken(v);
    assert ParseFieldTerm(t.field, tail) == Ok(Term(t.field, t.op, v), rest);
  }

  lemma ParseAnyField(names: Names, v: string, rest: seq<Token>)
    requires NeedsQuotes(v) || names.field(v).Some?
    requires Follow(rest)
    ensures ParsePrimary(names, [ValueToken(v)] + rest) == Ok(Term(All, OpContains, v), rest)
  {
    var from := [ValueToken(v)] + rest;
    assert from[1..] == rest;
    assert !StartsOp(names, rest);
  }

  lemma ParseNegation(names: Names, negate: bool, from: seq<Token>)
    requires from != [] && !from[0].Not?
    ensures ParseUnary(names, (if negate then [Not] else []) + from) ==
      match ParsePrimary(names, from)
      case Err(e) => Err(e)
      case Ok(ast, rest) => Ok(if negate then NotE(ast) else ast, rest)
  {
    if negate {
      assert ([Not] + from)[1..] == from;
    } else {
      assert [] + from == from;
    }
  }

  lemma ParseCondition(names: Names, t: Condition, v: string, rest: seq<Token>)
    requires KnowsFields(names) && Follow(rest)
    requires t.field == All ==> NeedsQuotes(v) || names.field(v).Some?
    ensures ParseUnary(names, HeadTokens(t) + [ValueToken(v)] + rest) == Ok(ConditionAst(t, v), rest)
  {
    hide ParseUnary, ParsePrimary, FieldName, NeedsQuotes;
    var not := if t.negate then [Not] else [];
    var from := (if t.field == All then [] else [Word(FieldName(t.field)), OpToken(t.op)]) + [ValueToken(v)] + rest;
    assert HeadTokens(t) + [ValueToken(v)] + rest == not + from;
    if t.field == All {
      assert from == [ValueToken(v)] + rest;
      ParseAnyField(names, v, rest);
    } else {
      assert from == [Word(FieldName(t.field)), OpToken(t.op), ValueToken(v)] + rest;
      ParseFieldCondition(names, t, v, rest);
    }
    ParseNegation(names, t.negate, from);
  }

  function PrefixText(t: Condition): string {
    (if t.negate then "NOT " else "") + (if t.field == All then "" else FieldName(t.field) + OpText(t.op))
  }

  lemma ConditionText(t: Condition)
    requires Live(t)
    ensures PrintCondition(t) == Some(PrefixText(t) + QuoteValue(Trim(JsSpace, t.value)))
  {
  }

  lemma Regroup(a: string, b: string, c: string)
    ensures a + b + c == a + (b + c)
  {
  }

  lemma ConditionReads(t: Condition, v: string, rest: string)
    requires v == Trim(JsSpace, t.value) && Live(t) && (NeedsQuotes(v) || Plain(v)) && Boundary(rest)
    ensures PrintCondition(t).Some?
    ensures Read(PrintCondition(t).value + rest) == Prepend(HeadTokens(t) + [ValueToken(v)], Read(rest))
  {
    ConditionText(t);
    Regroup(PrefixText(t), QuoteValue(v), rest);
    ReadHead(t, QuoteValue(v) + rest);
    ReadSafeValue(v, rest);
    PrependTwice(HeadTokens(t), [ValueToken(v)], Read(rest));
  }

  lemma ConditionGood(names: Names, j: Join, t: Condition)
    requires KnowsFields(names) && Live(t) && SafeCondition(names, t)
    ensures Good(names, ConditionItem(j, t))
  {
    var it := ConditionItem(j, t);
    var v := Trim(JsSpace, t.value);
    forall rest: string | Boundary(rest)
      ensures Read(it.text + rest) == Prepend(it.toks, Read(rest))
    {
      ConditionReads(t, v, rest);
    }
    forall rest: seq<Token> | Follow(rest)
      ensures ParseUnary(names, it.toks + rest) == Ok(it.ast, rest)
    {
      ParseCondition(names, t, v, rest);
    }
  }

  lemma ParseNoValue(names: Names, t: Condition, ts: seq<Token>)
    requires KnowsFields(names) && t.field != All && NoValue(ts)
    ensures Doomed(ParseUnary(names, HeadTokens(t) + ts))
  {
    hide ParseUnary, FieldName;
    var from := [Word(FieldName(t.field)), OpToken(t.op)] + ts;
    var tail := from[1..];
    assert tail == [OpToken(t.op)] + ts;
    assert tail[1] == ts[0];
    assert |ts| > 1 ==> tail[2..] == ts[1..] && ts[1..][0] == ts[1];
    assert Doomed(ParseFieldTerm(t.field, tail));
    assert HeadTokens(t) + ts == (if t.negate then [Not] else []) + from;
    ParseNegation(names, t.negate, from);
  }

  lemma ConditionBad(names: Names, j: Join, t: Condition)
    requires KnowsFields(names) && Live(t) && !SafeCondition(names, t) && t.field != All
    ensures Bad(names, ConditionItem(j, t))
  {
    var it := ConditionItem(j, t);
    var v := Trim(JsSpace, t.value);
    forall rest: string | Ends(rest) && Read(it.text + rest).Tokens?
      ensures Spoils(names, Read(it.text + rest).ts)
    {
      ConditionText(t);
      Regroup(PrefixText(t), v, rest);
      ReadHead(t, v + rest);
      ReadUnsafeValue(v, rest);
      ParseNoValue(names, t, Read(v + rest).ts);
    }
  }

  // ---- unsafe values on the field all ----

  /** What one unquoted value is read as: words and keywords, each followed by an operator or nothing. */
  predicate Shape(ts: seq<Token>) {
    forall i :: 0 <= i < |ts| ==>
      (IsOp(ts[i]) || ts[i].Word? || ts[i].And? || ts[i].Or? || ts[i].Not?) &&
      (!IsOp(ts[i]) && i + 1 < |ts| ==> IsOp(ts[i + 1]))
  }

  predicate OpChar(c: char) {
    c == ':' || c == '=' || c == '!'
  }

  lemma ShapeCons(t: Token, ts: seq<Token>)
    requires Shape(ts) && (IsOp(t) || t.Word? || t.And? || t.Or? || t.Not?)
    requires IsOp(t) || ts == [] || IsOp(ts[0])
    ensures Shape([t] + ts)
  {
    var all := [t] + ts;
    forall i | 0 <= i < |all|
      ensures (IsOp(all[i]) || all[i].Word? || all[i].And? || all[i].Or? || all[i].Not?) &&
        (!IsOp(all[i]) && i + 1 < |all| ==> IsOp(all[i + 1]))
    {
      if i > 0 {
        assert all[i] == ts[i - 1];
        assert i + 1 < |all| ==> all[i + 1] == ts[i];
      }
    }
  }

  /** The tail of an unquoted value is unquoted. */
  lemma UnquotedTail(v: string, n: nat)
    requires !NeedsQuotes(v) && n <= |v|
    ensures !NeedsQuotes(v[n..])
  {
  }

  /** The value v is read on its own in front of rest. */
  ghost predicate ReadsAlone(v: string, rest: string) {
    && !Read(v).Unclosed?
    && (Read(v).Stuck? ==> Read(v + rest).Stuck?)
    && (Read(v).Tokens? ==> Read(v + rest) == Prepend(Read(v).ts, Read(rest)) && Shape(Read(v).ts))
    && (Read(v).Tokens? && v != "" ==> Read(v).ts != [] && (IsOp(Read(v).ts[0]) <==> OpChar(v[0])))
  }

  /** One token t in front of a value that is read on its own. */
  lemma AloneStep(t: Token, v: string, v': string, rest: string)
    requires ReadsAlone(v', rest) && v != ""
    requires IsOp(t) || t.Word? || t.And? || t.Or? || t.Not?
    requires IsOp(t) || v' == "" || OpChar(v'[0])
    requires Read(v) == Prepend([t], Read(v')) && Read(v + rest) == Prepend([t], Read(v' + rest))
    requires IsOp(t) <==> OpChar(v[0])
    requires v' == "" ==> Read(v') == Tokens([])
    ensures ReadsAlone(v, rest)
  {
    hide Lex, Shape, OpChar;
    ChunkStep(t, Read(v'), Read(rest));
  }

  /** An unquoted value is read on its own, whatever follows it. */
  lemma {:induction false} ReadChunk(v: string, rest: string)
    requires !NeedsQuotes(v) && Boundary(rest)
    ensures ReadsAlone(v, rest)
    decreases |v|
  {
    hide Lex, ReadsAlone, NeedsQuotes, WordLen;
    if v == "" {
      ChunkEnd(rest);
    } else {
      UnquotedTail(v, 1);
      ReadChunk(v[1..], rest);
      if v[0] == '!' {
        if |v| > 1 && v[1] == '=' {
          UnquotedTail(v, 2);
          ReadChunk(v[2..], rest);
        }
        ChunkBang(v, rest);
      } else if OpChar(v[0]) {
        ChunkSymbol(v, rest);
      } else {
        var n := WordLen(Browser, v);
        WordNotEmpty(v);
        UnquotedTail(v, n);
        ReadChunk(v[n..], rest);
        ChunkWord(v, n, rest);
      }
    }
  }

  lemma ChunkEnd(rest: string)
    ensures ReadsAlone("", rest)
  {
    assert "" + rest == rest;
    NoTokens(Read(rest));
  }

  lemma WordNotEmpty(v: string)
    requires v != "" && !NeedsQuotes(v) && !OpChar(v[0])
    ensures 0 < WordLen(Browser, v)
  {
    UnquotedChars(v);
  }

  lemma ChunkSymbol(v: string, rest: string)
    requires !NeedsQuotes(v) && v != "" && (v[0] == ':' || v[0] == '=') && ReadsAlone(v[1..], rest)
    ensures ReadsAlone(v, rest)
  {
    hide ReadsAlone, NeedsQuotes, Lex;
    assert v == [v[0]] + v[1..];
    assert v + rest == [v[0]] + (v[1..] + rest);
    ReadSymbol(v[0], v[1..]);
    ReadSymbol(v[0], v[1..] + rest);
    NothingRead(v[1..]);
    AloneStep(Symbol(v[0]), v, v[1..], rest);
  }

  lemma NothingRead(v: string)
    ensures v == "" ==> Read(v) == Tokens([])
  {
  }

  lemma ChunkWord(v: string, n: nat, rest: string)
    requires !NeedsQuotes(v) && Boundary(rest) && v != "" && !OpChar(v[0])
    requires 0 < n == WordLen(Browser, v) && ReadsAlone(v[n..], rest)
    ensures ReadsAlone(v, rest)
  {
    hide ReadsAlone, NeedsQuotes, WordLen, EndsWord, OpChar, Boundary;
    var w, more := v[..n], v[n..];
    WordThenOp(v, n);
    assert w[0] == v[0];
    WordAlone(w, more, rest);
    assert v == w + more;
  }

  lemma WordAlone(w: string, v: string, rest: string)
    requires w != "" && !OpChar(w[0]) && forall k :: 0 <= k < |w| ==> !EndsWord(Browser, w[k])
    requires v == "" || (OpChar(v[0]) && EndsWord(Browser, v[0]))
    requires Boundary(rest) && ReadsAlone(v, rest)
    ensures ReadsAlone(w + v, rest)
  {
    hide ReadsAlone, Lex, EndsWord, Classify, OpChar;
    ReadWord(w, v);
    WordInFront(w, v, rest);
    NothingRead(v);
    ClassifiesNoOp(w);
    AloneStep(Classify(w), w + v, v, rest);
  }

  lemma WordThenOp(v: string, n: nat)
    requires !NeedsQuotes(v) && n == WordLen(Browser, v)
    ensures v[n..] == "" || (OpChar(v[n..][0]) && EndsWord(Browser, v[n..][0]))
    ensures forall k :: 0 <= k < n ==> !EndsWord(Browser, v[..n][k])
  {
    UnquotedChars(v);
  }

  lemma WordInFront(w: string, v: string, rest: string)
    requires w != "" && forall k :: 0 <= k < |w| ==> !EndsWord(Browser, w[k])
    requires Boundary(rest) && (v == "" || EndsWord(Browser, v[0]))
    ensures Read(w + v + rest) == Prepend([Classify(w)], Read(v + rest))
  {
    hide Lex, Classify;
    assert w + v + rest == w + (v + rest);
    assert v == "" ==> v + rest == rest;
    ReadWord(w, v + rest);
  }

  lemma ClassifiesNoOp(w: string)
    ensures var t := Classify(w); !IsOp(t) && (t.Word? || t.And? || t.Or? || t.Not?)
  {
  }

  lemma ChunkBang(v: string, rest: string)
    requires !NeedsQuotes(v) && Boundary(rest) && v != "" && v[0] == '!'
    requires |v| > 1 && v[1] == '=' ==> ReadsAlone(v[2..], rest)
    ensures ReadsAlone(v, rest)
  {
    hide NeedsQuotes, ReadsAlone, Lex;
    if |v| > 1 && v[1] == '=' {
      assert v == "!=" + v[2..];
      assert v + rest == "!=" + (v[2..] + rest);
      ReadOp(OpNe, v[2..]);
      ReadOp(OpNe, v[2..] + rest);
      NothingRead(v[2..]);
      AloneStep(NotEquals, v, v[2..], rest);
    } else {
      assert (v + rest)[0] == '!';
      assert |v + rest| > 1 ==> (v + rest)[1] != '=';
      BangHangs(v);
      BangHangs(v + rest);
      BothHang(v, rest);
    }
  }

  lemma BothHang(v: string, rest: string)
    requires Read(v).Stuck? && Read(v + rest).Stuck?
    ensures ReadsAlone(v, rest)
  {
    hide Lex;
  }

  lemma BangHangs(s: string)
    requires s != "" && s[0] == '!' && (|s| > 1 ==> s[1] != '=')
    ensures Read(s).Stuck?
  {
  }

  lemma ChunkStep(t: Token, r: Lexed, rest: Lexed)
    requires IsOp(t) || t.Word? || t.And? || t.Or? || t.Not?
    requires r.Tokens? ==> Shape(r.ts) && (IsOp(t) || r.ts == [] || IsOp(r.ts[0]))
    ensures r.Tokens? ==> Prepend([t], Prepend(r.ts, rest)) == Prepend(Prepend([t], r).ts, rest) && Shape(Prepend([t], r).ts)
    ensures r.Tokens? ==> Prepend([t], r).ts[0] == t
  {
    if r.Tokens? {
      PrependTwice([t], r.ts, rest);
      ShapeCons(t, r.ts);
    }
  }

  /** A value read as a single word is that word. */
  lemma OneWord(v: string, w: string)
    requires v != "" && !NeedsQuotes(v) && Read(v) == Tokens([Word(w)])
    ensures w == v && Plain(v)
  {
    UnquotedChars(v);
    ReadChunk(v, "");
    var n := WordLen(Browser, v);
    assert v == v[..n] + v[n..];
    ReadWord(v[..n], v[n..]);
    UnquotedTail(v, n);
    ReadChunk(v[n..], "");
    assert Read(v[n..]).ts == [];
    assert v[..n] == v;
  }

  /** Three tokens of the shape of a condition parse as one; all else of this shape that is no known word alone fails. */
  lemma ParseChunk(names: Names, ts: seq<Token>, rest: seq<Token>)
    requires ts != [] && Shape(ts) && Follow(rest)
    requires |ts| == 1 && ts[0].Word? ==> names.field(ts[0].value).None?
    ensures var p := ParseUnary(names, ts + rest);
      if |ts| == 3 && ts[0].Word? && ts[2].Word? && names.field(ts[0].value).Some? && names.field(ts[0].value).value != All
      then p == Ok(Term(names.field(ts[0].value).value, OpOf(ts[1]), ts[2].value), rest)
      else Doomed(p)
  {
    var all := ts + rest;
    assert all[0] == ts[0];
    assert forall i :: 0 <= i < |ts| ==> all[i] == ts[i];
    if ts[0].Not? {
      assert all[1..] != [] ==> all[1..][0] == all[1];
      assert ParsePrimary(names, all[1..]).Err?;
    } else if ts[0].Word? && |ts| > 1 {
      assert IsOp(all[1]) && all[1..][0] == all[1];
      assert |all| > 2 ==> all[1..][1] == all[2] && all[1..][2..] == all[3..];
      if |ts| == 3 {
        assert all[3..] == rest;
      } else if |ts| > 3 {
        assert all[3..][0] == ts[3];
      } else {
        assert |all| > 2 ==> all[2] == rest[0];
      }
    }
  }

  lemma ParseNotChunk(names: Names, negate: bool, ts: seq<Token>, rest: seq<Token>)
    requires ts != [] && Shape(ts) && Follow(rest)
    requires |ts| == 1 && ts[0].Word? ==> names.field(ts[0].value).None?
    ensures var p := ParseUnary(names, NotToken(negate) + ts + rest);
      if |ts| == 3 && ts[0].Word? && ts[2].Word? && names.field(ts[0].value).Some? && names.field(ts[0].value).value != All
      then p == Ok(
        if negate then NotE(Term(names.field(ts[0].value).value, OpOf(ts[1]), ts[2].value))
        else Term(names.field(ts[0].value).value, OpOf(ts[1]), ts[2].value), rest)
      else Doomed(p)
  {
    var from := ts + rest;
    ParseChunk(names, ts, rest);
    hide ParsePrimary, ParseUnary, Shape, Follow, OpOf;
    UnaryMaybeNot(names, negate, from);
    assert NotToken(negate) + ts + rest == NotToken(negate) + from;
  }

  lemma UnaryMaybeNot(names: Names, negate: bool, from: seq<Token>)
    ensures ParseUnary(names, NotToken(negate) + from) ==
      match ParseUnary(names, from) case Err(e) => Err(e) case Ok(ast, rest) => Ok(if negate then NotE(ast) else ast, rest)
  {
    hide ParseUnary;
    if negate {
      UnaryNot(names, from);
    } else {
      assert NotToken(negate) + from == from;
    }
  }

  lemma UnaryNot(names: Names, from: seq<Token>)
    ensures ParseUnary(names, [Not] + from) ==
      match ParseUnary(names, from) case Err(e) => Err(e) case Ok(ast, rest) => Ok(NotE(ast), rest)
  {
    assert ([Not] + from)[1..] == from;
  }

  /** The text and the tokens of an unsafe condition on the field all. */
  lemma ChunkReads(t: Condition, rest: string)
    requires t.field == All && Live(t) && !NeedsQuotes(Trim(JsSpace, t.value)) && Boundary(rest)
    ensures PrintCondition(t).Some?
    ensures var r := Read(Trim(JsSpace, t.value));
      (!r.Tokens? ==> !Read(PrintCondition(t).value + rest).Tokens?) &&
      (r.Tokens? ==> r.ts != [] && Shape(r.ts) && Read(PrintCondition(t).value + rest) == Prepend(NotToken(t.negate) + r.ts, Read(rest)))
  {
    hide Lex, NeedsQuotes, Trim;
    var v := Trim(JsSpace, t.value);
    ConditionText(t);
    Regroup(PrefixText(t), v, rest);
    ReadHead(t, v + rest);
    ReadChunk(v, rest);
    assert HeadTokens(t) == NotToken(t.negate);
    if Read(v).Tokens? {
      PrependTwice(NotToken(t.negate), Read(v).ts, Read(rest));
    }
  }

  /** No token list of an unsafe value is a known word alone. */
  lemma NotOneWord(names: Names, t: Condition)
    requires t.field == All && Live(t) && !SafeCondition(names, t)
    ensures var r := Read(Trim(JsSpace, t.value));
      r.Tokens? && |r.ts| == 1 && r.ts[0].Word? ==> names.field(r.ts[0].value).None?
  {
    hide Lex, Trim, Plain;
    var v := Trim(JsSpace, t.value);
    var r := Read(v);
    if r.Tokens? && |r.ts| == 1 && r.ts[0].Word? {
      assert r.ts == [r.ts[0]];
      OneWord(v, r.ts[0].value);
    }
  }

  lemma MisreadGood(names: Names, j: Join, t: Condition)
    requires Live(t) && !SafeCondition(names, t) && Misread(names, t).Some?
    ensures Good(names, SeenItem(names, j, t))
  {
    hide Lex, NeedsQuotes, Trim, SafeCondition, PrintCondition, Live;
    var it, ts := SeenItem(names, j, t), Read(Trim(JsSpace, t.value)).ts;
    forall rest: string | Boundary(rest)
      ensures Read(it.text + rest) == Prepend(it.toks, Read(rest))
    {
      ChunkReads(t, rest);
    }
    ChunkReads(t, "");
    forall rest: seq<Token> | Follow(rest)
      ensures ParseUnary(names, it.toks + rest) == Ok(it.ast, rest)
    {
      NotOneWord(names, t);
      ParseNotChunk(names, t.negate, ts, rest);
    }
  }

  lemma OpFollowsWord(ts: seq<Token>)
    requires |ts| == 3 && ts[0].Word? && Shape(ts)
    ensures IsOp(ts[1])
  {
    assert !IsOp(ts[0]) && 0 + 1 < |ts|;
  }

  lemma UnreadableSpoils(names: Names, t: Condition, rest: string)
    requires t.field == All && Live(t) && !ReadableCondition(names, t) && Ends(rest)
    requires PrintCondition(t).Some? && Read(PrintCondition(t).value + rest).Tokens?
    ensures Spoils(names, Read(PrintCondition(t).value + rest).ts)
  {
    hide Lex, NeedsQuotes, Trim, PrintCondition, Live, ParseUnary, Shape, Plain;
    ChunkReads(t, rest);
    NotOneWord(names, t);
    var ts := Read(Trim(JsSpace, t.value)).ts;
    var more := Read(rest).ts;
    if |ts| == 3 && ts[0].Word? && Shape(ts) {
      OpFollowsWord(ts);
    }
    ParseNotChunk(names, t.negate, ts, more);
  }

  lemma UnreadableBad(names: Names, j: Join, t: Condition)
    requires t.field == All && Live(t) && !ReadableCondition(names, t)
    ensures Bad(names, ConditionItem(j, t))
  {
    hide Lex, NeedsQuotes, Trim, ReadableCondition, Live, ParseUnary, Spoils, Ends;
    ConditionText(t);
    forall rest: string | Ends(rest) && Read(ConditionItem(j, t).text + rest).Tokens?
      ensures Spoils(names, Read(ConditionItem(j, t).text + rest).ts)
    {
      UnreadableSpoils(names, t, rest);
    }
  }

  /** A printed condition is read as its seen unit, or spoils the query. */
  lemma ConditionSeen(names: Names, j: Join, t: Condition)
    requires KnowsFields(names) && Live(t)
    ensures if ReadableCondition(names, t) then Good(names, SeenItem(names, j, t)) else Bad(names, SeenItem(names, j, t))
  {
    hide Good, Bad, Live, ConditionItem, KnowsFields;
    if SafeCondition(names, t) {
      ConditionGood(names, j, t);
    } else if Misread(names, t).Some? {
      MisreadGood(names, j, t);
    } else if t.field == All {
      UnreadableBad(names, j, t);
    } else {
      ConditionBad(names, j, t);
    }
  }

  // ---- the parser's loops over a list of units ----

  /** Both loops, with the AND-joined tree cur under construction and outer before the last OR. */
  function Loops(names: Names, outer: Option<Ast>, cur: Ast, ts: seq<Token>): Parsed {
    match AndTail(names, cur, ts)
    case Err(e) => Err(e)
    case Ok(a, rest) => OrTail(names, Combine(outer, a), rest)
  }

  lemma ParseOrLoops(names: Names, ts: seq<Token>)
    ensures ParseOr(names, ts) ==
      match ParseUnary(names, ts) case Err(e) => Err(e) case Ok(a, rest) => Loops(names, None, a, rest)
  {
  }

  /** One more unit after AND goes into cur; after OR it starts a new cur. */
  lemma LoopsStep(names: Names, outer: Option<Ast>, cur: Ast, j: Join, ts: seq<Token>)
    ensures var step := [if j.JoinAnd? then And else Or] + ts;
      Loops(names, outer, cur, step) ==
      match ParseUnary(names, ts)
      case Err(e) => Err(e)
      case Ok(a, rest) =>
        if j.JoinAnd? then Loops(names, outer, AndE(cur, a), rest) else Loops(names, Some(Combine(outer, cur)), a, rest)
  {
    var step := [if j.JoinAnd? then And else Or] + ts;
    assert step[1..] == ts;
    if j.JoinOr? {
      assert AndTail(names, cur, step) == Ok(cur, step);
      var left := Combine(outer, cur);
      match ParseUnary(names, ts)
      case Err(_) =>
      case Ok(a, rest) =>
        assert ParseAnd(names, ts) == AndTail(names, a, rest);
        assert OrTail(names, left, step) ==
          match ParseAnd(names, ts) case Err(e) => Err(e) case Ok(b, more) => OrTail(names, OrE(left, b), more);
    }
  }

  lemma LoopsDoomed(names: Names, outer: Option<Ast>, cur: Ast, ts: seq<Token>)
    requires ts != [] && IsOp(ts[0])
    ensures Doomed(Loops(names, outer, cur, ts))
  {
  }

  lemma TailBoundary(items: seq<Item>, end: string)
    requires Boundary(end)
    ensures Boundary(TailText(items) + end)
  {
    if items == [] {
      assert TailText(items) + end == end;
    }
  }

  /** The text of the units from items[0] on, taken apart. */
  lemma ReadTail(items: seq<Item>, end: string)
    requires items != []
    ensures var rest := TailText(items[1..]) + end;
      Read(TailText(items) + end) ==
      Prepend([if items[0].join.JoinAnd? then And else Or], Read(items[0].text + rest))
  {
    var rest := TailText(items[1..]) + end;
    var it := items[0];
    assert TailText(items) + end == " " + (JoinPrefix(it.join) + (it.text + rest));
    ReadSpace(JoinPrefix(it.join) + (it.text + rest));
    ReadJoin(it.join, it.text + rest);
  }

  lemma PrependThrice(a: seq<Token>, b: seq<Token>, c: seq<Token>, r: Lexed)
    ensures Prepend(a, Prepend(b, Prepend(c, r))) == Prepend(a + b + c, r)
  {
    PrependTwice(b, c, r);
    PrependTwice(a, b + c, r);
    assert a + (b + c) == a + b + c;
  }

  lemma {:induction false} TailTokens(items: seq<Item>, end: string)
    requires Boundary(end) && forall k :: 0 <= k < |items| ==> TextGood(items[k])
    ensures Read(TailText(items) + end) == Prepend(ItemsTokens(items), Read(end))
    decreases |items|
  {
    if items == [] {
      assert TailText(items) + end == end;
      NoTokens(Read(end));
    } else {
      var it, rest := items[0], TailText(items[1..]) + end;
      var join := [if it.join.JoinAnd? then And else Or];
      ReadTail(items, end);
      TailBoundary(items[1..], end);
      assert TextGood(it);
      assert Read(it.text + rest) == Prepend(it.toks, Read(rest));
      TailTokens(items[1..], end);
      PrependThrice(join, it.toks, ItemsTokens(items[1..]), Read(end));
    }
  }

  lemma {:induction false} ParseTail(names: Names, outer: Option<Ast>, cur: Ast, items: seq<Item>, end: seq<Token>)
    requires end == [] || end[0].RParen?
    requires forall k :: 0 <= k < |items| ==> ToksGood(names, items[k])
    ensures Loops(names, outer, cur, ItemsTokens(items) + end) == Ok(Fold(outer, cur, items), end)
    decreases |items|
  {
    if items == [] {
      assert ItemsTokens(items) + end == end;
    } else {
      hide Loops, ParseUnary;
      var it, rest := items[0], ItemsTokens(items[1..]) + end;
      assert ItemsTokens(items) + end == [if it.join.JoinAnd? then And else Or] + (it.toks + rest);
      LoopsStep(names, outer, cur, it.join, it.toks + rest);
      assert Follow(rest);
      assert ParseUnary(names, it.toks + rest) == Ok(it.ast, rest);
      if it.join.JoinAnd? {
        ParseTail(names, outer, AndE(cur, it.ast), items[1..], end);
      } else {
        ParseTail(names, Some(Combine(outer, cur)), it.ast, items[1..], end);
      }
    }
  }

  /** One bad unit among good ones spoils the rest of the query. */
  lemma {:induction false} SpoiledTail(names: Names, outer: Option<Ast>, cur: Ast, items: seq<Item>, k: nat, end: string)
    requires Ends(end) && k < |items| && Bad(names, items[k])
    requires forall i :: 0 <= i < k ==> Good(names, items[i])
    ensures var r := Read(TailText(items) + end); r.Tokens? ==> Doomed(Loops(names, outer, cur, r.ts))
    decreases |items|
  {
    hide Lex, ParseUnary, Loops;
    var it, rest := items[0], TailText(items[1..]) + end;
    var r := Read(TailText(items) + end);
    ReadTail(items, end);
    TailEnds(items[1..], end);
    if r.Tokens? {
      var ts := Read(it.text + rest).ts;
      LoopsStep(names, outer, cur, it.join, ts);
      if k == 0 {
        assert Spoils(names, ts);
        var p := ParseUnary(names, ts);
        if p.Ok? {
          LoopsDoomed(names, outer, AndE(cur, p.ast), p.rest);
          LoopsDoomed(names, Some(Combine(outer, cur)), p.ast, p.rest);
        }
      } else {
        assert Read(it.text + rest) == Prepend(it.toks, Read(rest));
        var us := Read(rest).ts;
        assert Follow(us);
        assert ParseUnary(names, it.toks + us) == Ok(it.ast, us);
        assert forall i :: 0 <= i < k - 1 ==> items[1..][i] == items[i + 1];
        SpoiledTail(names, outer, AndE(cur, it.ast), items[1..], k - 1, end);
        SpoiledTail(names, Some(Combine(outer, cur)), it.ast, items[1..], k - 1, end);
      }
    }
  }

  lemma TailEnds(items: seq<Item>, end: string)
    requires Ends(end)
    ensures Ends(TailText(items) + end)
  {
    TailBoundary(items, end);
    if items == [] {
      assert TailText(items) + end == end;
    } else if Read(TailText(items) + end).Tokens? {
      TailFollow(items, end);
    }
  }

  lemma TailFollow(items: seq<Item>, end: string)
    requires items != [] && Read(TailText(items) + end).Tokens?
    ensures Follow(Read(TailText(items) + end).ts)
  {
    ReadTail(items, end);
  }

  // ---- a list of units with its first one ----

  function ListText(items: seq<Item>): string
    requires items != []
  {
    items[0].text + TailText(items[1..])
  }

  lemma ListGood(names: Names, items: seq<Item>, end: string)
    requires items != [] && Boundary(end)
    requires forall k :: 0 <= k < |items| ==> Good(names, items[k])
    ensures Read(ListText(items) + end) == Prepend(items[0].toks + ItemsTokens(items[1..]), Read(end))
  {
    hide Lex;
    var rest := TailText(items[1..]) + end;
    assert ListText(items) + end == items[0].text + rest;
    TailBoundary(items[1..], end);
    assert TextGood(items[0]);
    TailTokens(items[1..], end);
    PrependTwice(items[0].toks, ItemsTokens(items[1..]), Read(end));
  }

  lemma ListParses(names: Names, items: seq<Item>, end: seq<Token>)
    requires items != [] && (end == [] || end[0].RParen?)
    requires forall k :: 0 <= k < |items| ==> Good(names, items[k])
    ensures ParseOr(names, items[0].toks + ItemsTokens(items[1..]) + end) == Ok(FoldAll(items), end)
  {
    hide ParseUnary, ParseOr;
    var ts := items[0].toks + ItemsTokens(items[1..]) + end;
    var rest := ItemsTokens(items[1..]) + end;
    assert ts == items[0].toks + rest;
    assert Follow(rest);
    assert ToksGood(names, items[0]);
    ParseOrLoops(names, ts);
    ParseTail(names, None, items[0].ast, items[1..], end);
  }

  lemma FirstSpoiled(names: Names, it: Item, rest: string)
    requires Ends(rest) && Bad(names, it)
    ensures var r := Read(it.text + rest); r.Tokens? ==> r.ts != [] && Doomed(ParseOr(names, r.ts))
  {
    var r := Read(it.text + rest);
    if r.Tokens? {
      ParseOrLoops(names, r.ts);
      var p := ParseUnary(names, r.ts);
      if p.Ok? {
        LoopsDoomed(names, None, p.ast, p.rest);
      }
    }
  }

  lemma LaterSpoiled(names: Names, it: Item, rest: string)
    requires Boundary(rest) && Good(names, it)
    requires Read(rest).Tokens? ==> Follow(Read(rest).ts) && Doomed(Loops(names, None, it.ast, Read(rest).ts))
    ensures var r := Read(it.text + rest); r.Tokens? ==> r.ts != [] && Doomed(ParseOr(names, r.ts))
  {
    var r := Read(it.text + rest);
    assert r == Prepend(it.toks, Read(rest));
    if r.Tokens? {
      assert ParseUnary(names, it.toks + Read(rest).ts) == Ok(it.ast, Read(rest).ts);
      ParseOrLoops(names, r.ts);
    }
  }

  lemma ListSpoiledLater(names: Names, items: seq<Item>, k: nat, end: string)
    requires 0 < k < |items| && Ends(end) && Bad(names, items[k])
    requires forall i :: 0 <= i < k ==> Good(names, items[i])
    ensures var rest := TailText(items[1..]) + end;
      var r := Read(items[0].text + rest); r.Tokens? ==> r.ts != [] && Doomed(ParseOr(names, r.ts))
  {
    hide Lex, ParseOr, ParseUnary, Bad, Good;
    var tail := items[1..];
    var rest := TailText(tail) + end;
    TailEnds(tail, end);
    assert forall i :: 0 <= i < k - 1 ==> tail[i] == items[i + 1];
    SpoiledTail(names, None, items[0].ast, tail, k - 1, end);
    if Read(rest).Tokens? {
      TailFollow(tail, end);
    }
    LaterSpoiled(names, items[0], rest);
  }

  lemma ListSpoiled(names: Names, items: seq<Item>, k: nat, end: string)
    requires k < |items| && Ends(end) && Bad(names, items[k])
    requires forall i :: 0 <= i < k ==> Good(names, items[i])
    ensures var r := Read(ListText(items) + end); r.Tokens? ==> r.ts != [] && Doomed(ParseOr(names, r.ts))
  {
    hide Lex, ParseOr, Bad, Good;
    var rest := TailText(items[1..]) + end;
    Regroup(items[0].text, TailText(items[1..]), end);
    TailEnds(items[1..], end);
    if k == 0 {
      FirstSpoiled(names, items[0], rest);
    } else {
      ListSpoiledLater(names, items, k, end);
    }
  }

  // ---- groups ----

  function Separator(op: Join): string {
    if op.JoinOr? then " OR " else " AND "
  }

  function Texts(items: seq<Item>): seq<string> {
    seq(|items|, k requires 0 <= k < |items| => items[k].text)
  }

  lemma {:induction false} JoinedTexts(op: Join, items: seq<Item>)
    requires items != [] && forall k :: 0 <= k < |items| ==> items[k].join == op
    ensures JoinWith(Separator(op), Texts(items)) == ListText(items)
    decreases |items|
  {
    var sep, texts := Separator(op), Texts(items);
    assert texts[1..] == Texts(items[1..]);
    if |items| > 1 {
      JoinedTexts(op, items[1..]);
      TailIsJoined(op, items[1..]);
      hide Separator, Texts, TailText;
      Regroup(texts[0], sep, JoinWith(sep, texts[1..]));
    }
  }

  lemma TailIsJoined(op: Join, items: seq<Item>)
    requires items != [] && items[0].join == op
    ensures TailText(items) == Separator(op) + ListText(items)
  {
    var a, b := items[0].text, TailText(items[1..]);
    assert Separator(op) == " " + JoinPrefix(op);
    hide JoinPrefix, Separator;
    Regroup(" " + JoinPrefix(op), a, b);
  }

  lemma PresentTexts<A>(f: A -> Option<string>, s: seq<A>, items: seq<Item>)
    requires |items| == |s| && forall k :: 0 <= k < |s| ==> f(s[k]) == Some(items[k].text)
    ensures Present(f, s) == Texts(items)
  {
    PresentAll(f, s);
  }

  lemma LiveIsPrinted()
    ensures forall t :: Live(t) <==> PrintCondition(t).Some?
  {
  }

  lemma ConditionsText(op: Join, ts: seq<Condition>)
    ensures JoinWith(Separator(op), Present(PrintCondition, ts)) ==
      var items := ConditionItems(op, LiveConditions(ts)); if items == [] then "" else ListText(items)
  {
    hide PrintCondition, Live;
    var live := LiveConditions(ts);
    var items := ConditionItems(op, live);
    LiveIsPrinted();
    PresentKeep(PrintCondition, Live, ts);
    PresentTexts(PrintCondition, live, items);
    if items != [] {
      JoinedTexts(op, items);
    }
  }

  lemma ConditionTextNotEmpty(t: Condition)
    requires Live(t)
    ensures PrintCondition(t).Some? && PrintCondition(t).value != ""
  {
    assert QuoteValue(Trim(JsSpace, t.value)) != "";
  }

  /** The first element without property p, if there is one. */
  lemma {:induction false} FirstWithout<A>(p: A -> bool, s: seq<A>) returns (k: nat)
    ensures k <= |s| && forall i :: 0 <= i < k ==> p(s[i])
    ensures k < |s| ==> !p(s[k])
  {
    if s == [] || !p(s[0]) {
      k := 0;
    } else {
      var j := FirstWithout(p, s[1..]);
      k := j + 1;
      assert forall i :: 1 <= i < k ==> s[i] == s[1..][i - 1];
    }
  }

  lemma ListNotEmpty(op: Join, ts: seq<Condition>)
    requires ts != [] && forall k :: 0 <= k < |ts| ==> Live(ts[k])
    ensures ListText(ConditionItems(op, ts)) != ""
  {
    ConditionTextNotEmpty(ts[0]);
  }

  /** A group is printed exactly when one of its conditions is. */
  lemma GroupText(row: Row)
    requires row.GroupRow?
    ensures PrintRow(row).Some? <==> LiveRow(row)
    ensures LiveRow(row) ==>
      PrintRow(row).value == NotText(row.negate) + "(" + ListText(ConditionItems(row.op, LiveConditions(row.children))) + ")"
  {
    ConditionsText(row.op, row.children);
    if LiveRow(row) {
      ListNotEmpty(row.op, LiveConditions(row.children));
    }
  }

  lemma Assoc4(a: string, b: string, c: string, d: string, e: string)
    ensures a + b + c + d + e == a + (b + (c + (d + e)))
  {
    Regroup(a, b, c);
    Regroup(a, b + c, d);
    Regroup(a, b + c + d, e);
    Regroup(b, c, d);
    Regroup(b, c + d, e);
    Regroup(c, d, e);
  }

  function NotText(negate: bool): string {
    if negate then "NOT " else ""
  }

  lemma ReadGroup(negate: bool, inner: string, rest: string)
    ensures Read(NotText(negate) + "(" + inner + ")" + rest) ==
      Prepend(NotToken(negate) + [LParen], Read(inner + (")" + rest)))
  {
    var u := inner + (")" + rest);
    Assoc4(NotText(negate), "(", inner, ")", rest);
    ReadNegation(negate, "(" + u);
    ReadSymbol('(', u);
    PrependTwice(NotToken(negate), [LParen], Read(u));
  }

  lemma GroupReads(names: Names, negate: bool, items: seq<Item>, rest: string)
    requires items != [] && Boundary(rest)
    requires forall k :: 0 <= k < |items| ==> Good(names, items[k])
    ensures Read(NotText(negate) + "(" + ListText(items) + ")" + rest) ==
      Prepend(NotToken(negate) + [LParen] + items[0].toks + ItemsTokens(items[1..]) + [RParen], Read(rest))
  {
    var inner := items[0].toks + ItemsTokens(items[1..]);
    ReadGroup(negate, ListText(items), rest);
    ListGood(names, items, ")" + rest);
    ReadSymbol(')', rest);
    PrependThrice(NotToken(negate) + [LParen], inner, [RParen], Read(rest));
    RegroupTokens(NotToken(negate) + [LParen], items[0].toks, ItemsTokens(items[1..]));
  }

  lemma RegroupTokens(a: seq<Token>, b: seq<Token>, c: seq<Token>)
    ensures a + (b + c) == a + b + c
  {
  }

  lemma ParseParens(names: Names, negate: bool, inner: seq<Token>)
    ensures ParseUnary(names, NotToken(negate) + [LParen] + inner) ==
      match ParseOr(names, inner)
      case Err(e) => Err(e)
      case Ok(ast, rest) =>
        if rest != [] && rest[0].RParen? then Ok(if negate then NotE(ast) else ast, rest[1..]) else Err(MissingParen)
  {
    var from := [LParen] + inner;
    assert from[1..] == inner;
    assert NotToken(negate) + [LParen] + inner == NotToken(negate) + from;
    ParseNegation(names, negate, from);
  }

  lemma GroupParses(names: Names, negate: bool, items: seq<Item>, rest: seq<Token>)
    requires items != [] && forall k :: 0 <= k < |items| ==> Good(names, items[k])
    ensures ParseUnary(names,
        NotToken(negate) + [LParen] + items[0].toks + ItemsTokens(items[1..]) + [RParen] + rest) ==
      Ok(if negate then NotE(FoldAll(items)) else FoldAll(items), rest)
  {
    var open := NotToken(negate) + [LParen];
    var inner := items[0].toks + ItemsTokens(items[1..]) + ([RParen] + rest);
    assert open + items[0].toks + ItemsTokens(items[1..]) + [RParen] + rest == open + inner;
    ListParses(names, items, [RParen] + rest);
    ParseParens(names, negate, inner);
  }

  lemma {:induction false} SameTail(a: seq<Item>, b: seq<Item>)
    requires |a| == |b| && forall k :: 0 <= k < |a| ==> a[k].text == b[k].text && a[k].join == b[k].join
    ensures TailText(a) == TailText(b)
    decreases |a|
  {
    if a != [] {
      SameTail(a[1..], b[1..]);
    }
  }

  /** Units with the same texts and joins are printed alike. */
  lemma SameText(a: seq<Item>, b: seq<Item>)
    requires a != [] && |a| == |b| && forall k :: 0 <= k < |a| ==> a[k].text == b[k].text && a[k].join == b[k].join
    ensures ListText(a) == ListText(b)
  {
    SameTail(a[1..], b[1..]);
  }

  /** Seen units bear the texts and joins of the printed ones. */
  lemma SeenTexts(names: Names, op: Join, ts: seq<Condition>)
    requires ts != []
    ensures ListText(SeenItems(names, op, ts)) == ListText(ConditionItems(op, ts))
  {
    hide PrintCondition, SafeCondition, Misread, ListText, ConditionAst, HeadTokens, Trim, Lex;
    SameText(SeenItems(names, op, ts), ConditionItems(op, ts));
  }

  lemma SeenText(names: Names, row: Row)
    requires row.GroupRow? && LiveRow(row)
    ensures var items := SeenItems(names, row.op, LiveConditions(row.children));
      items != [] && SeenRow(names, row).text == NotText(row.negate) + "(" + ListText(items) + ")"
  {
    hide ConditionItem, PrintRow, SafeCondition, Misread, Live, ListText, SeenItem, ItemsTokens, FoldAll;
    GroupText(row);
    SeenTexts(names, row.op, LiveConditions(row.children));
  }

  lemma GroupItemsSeen(names: Names, op: Join, ts: seq<Condition>)
    requires KnowsFields(names)
    requires forall k :: 0 <= k < |ts| ==> Live(ts[k])
    ensures forall k :: 0 <= k < |ts| ==>
      if ReadableCondition(names, ts[k]) then Good(names, SeenItems(names, op, ts)[k]) else Bad(names, SeenItems(names, op, ts)[k])
  {
    hide Good, Bad, Live, SeenItem, ReadableCondition, KnowsFields;
    forall k | 0 <= k < |ts|
      ensures if ReadableCondition(names, ts[k]) then Good(names, SeenItems(names, op, ts)[k]) else Bad(names, SeenItems(names, op, ts)[k])
    {
      ConditionSeen(names, op, ts[k]);
    }
  }

  lemma SeenParts(names: Names, row: Row)
    requires row.GroupRow?
    ensures var items := SeenItems(names, row.op, LiveConditions(row.children)); var it := SeenRow(names, row);
      items != [] ==>
        it.toks == NotToken(row.negate) + [LParen] + items[0].toks + ItemsTokens(items[1..]) + [RParen] &&
        it.ast == if row.negate then NotE(FoldAll(items)) else FoldAll(items)
  {
    hide SeenItem, PrintRow, LiveConditions, ItemsTokens, FoldAll;
  }

  lemma GroupGood(names: Names, row: Row)
    requires KnowsFields(names) && row.GroupRow? && LiveRow(row)
    requires forall k :: 0 <= k < |LiveConditions(row.children)| ==> ReadableCondition(names, LiveConditions(row.children)[k])
    ensures Good(names, SeenRow(names, row))
  {
    hide ReadableCondition, SeenItem, KnowsFields, PrintRow, LiveRow, Good;
    var items := SeenItems(names, row.op, LiveConditions(row.children));
    GroupItemsSeen(names, row.op, LiveConditions(row.children));
    SeenText(names, row);
    SeenParts(names, row);
    hide SeenRow;
    GroupUnit(names, row.negate, items, SeenRow(names, row));
  }

  /** Good units in parentheses make a good unit. */
  lemma GroupUnit(names: Names, negate: bool, items: seq<Item>, it: Item)
    requires items != [] && forall k :: 0 <= k < |items| ==> Good(names, items[k])
    requires it.text == NotText(negate) + "(" + ListText(items) + ")"
    requires it.toks == NotToken(negate) + [LParen] + items[0].toks + ItemsTokens(items[1..]) + [RParen]
    requires it.ast == if negate then NotE(FoldAll(items)) else FoldAll(items)
    ensures Good(names, it)
  {
    forall rest: string | Boundary(rest)
      ensures Read(it.text + rest) == Prepend(it.toks, Read(rest))
    {
      hide Good, ListText, ItemsTokens, FoldAll, Lex, ParseUnary, NotText, NotToken;
      GroupReads(names, negate, items, rest);
    }
    forall rest: seq<Token> | Follow(rest)
      ensures ParseUnary(names, it.toks + rest) == Ok(it.ast, rest)
    {
      hide Good, ListText, ItemsTokens, FoldAll, Lex, ParseUnary, NotText, NotToken;
      GroupParses(names, negate, items, rest);
    }
    hide ListText, ItemsTokens, FoldAll, Lex, ParseUnary, NotText, NotToken;
  }

  lemma ParenEnds(rest: string)
    requires Ends(rest)
    ensures Ends(")" + rest)
  {
    ReadSymbol(')', rest);
  }

  lemma GroupSpoils(names: Names, negate: bool, items: seq<Item>, k: nat, it: Item)
    requires k < |items| && Bad(names, items[k])
    requires forall i :: 0 <= i < k ==> Good(names, items[i])
    requires it.text == NotText(negate) + "(" + ListText(items) + ")"
    ensures Bad(names, it)
  {
    forall rest: string | Ends(rest) && Read(it.text + rest).Tokens?
      ensures Spoils(names, Read(it.text + rest).ts)
    {
      ReadGroup(negate, ListText(items), rest);
      ParenEnds(rest);
      ListSpoiled(names, items, k, ")" + rest);
      ParseParens(names, negate, Read(ListText(items) + (")" + rest)).ts);
    }
  }

  lemma GroupBad(names: Names, row: Row, k: nat)
    requires KnowsFields(names) && row.GroupRow? && k < |LiveConditions(row.children)|
    requires var live := LiveConditions(row.children);
      !ReadableCondition(names, live[k]) && forall i :: 0 <= i < k ==> ReadableCondition(names, live[i])
    ensures Bad(names, SeenRow(names, row))
  {
    hide Good, Bad, PrintRow, ReadableCondition, SeenItem, KnowsFields, SeenRow;
    var live := LiveConditions(row.children);
    GroupItemsSeen(names, row.op, live);
    SeenText(names, row);
    GroupSpoils(names, row.negate, SeenItems(names, row.op, live), k, SeenRow(names, row));
  }

  // ---- rows ----

  /** What holds of every blank condition holds of all conditions when it holds of the live ones. */
  lemma {:induction false} AllLive(p: Condition -> bool, ts: seq<Condition>)
    requires forall t | !Live(t) :: p(t)
    ensures (forall k :: 0 <= k < |ts| ==> p(ts[k])) <==>
      (forall k :: 0 <= k < |LiveConditions(ts)| ==> p(LiveConditions(ts)[k]))
  {
    hide Live;
    var live := LiveConditions(ts);
    forall k | 0 <= k < |ts| && Live(ts[k])
      ensures ts[k] in live
    {
      KeepHas(Live, ts, k);
    }
    if forall k :: 0 <= k < |live| ==> p(live[k]) {
      forall k | 0 <= k < |ts|
        ensures p(ts[k])
      {
        if Live(ts[k]) {
          assert ts[k] in live;
        }
      }
    }
  }

  lemma BlankIsSafe(names: Names, t: Condition)
    requires !Live(t)
    ensures SafeCondition(names, t) && ReadableCondition(names, t)
  {
  }

  lemma SafeLive(names: Names, row: Row)
    requires row.GroupRow?
    ensures SafeRow(names, row) <==>
      forall k :: 0 <= k < |LiveConditions(row.children)| ==> SafeCondition(names, LiveConditions(row.children)[k])
    ensures ReadableRow(names, row) <==>
      forall k :: 0 <= k < |LiveConditions(row.children)| ==> ReadableCondition(names, LiveConditions(row.children)[k])
  {
    hide SafeCondition, ReadableCondition, Live, LiveConditions;
    forall t: Condition | !Live(t)
      ensures SafeCondition(names, t) && ReadableCondition(names, t)
    {
      BlankIsSafe(names, t);
    }
    AllLive(t => SafeCondition(names, t), row.children);
    AllLive(t => ReadableCondition(names, t), row.children);
  }

  /** A live row is read as its seen unit when its conditions are readable, and spoils the query otherwise. */
  lemma RowGoodOrBad(names: Names, row: Row)
    requires KnowsFields(names) && LiveRow(row)
    ensures if ReadableRow(names, row) then Good(names, SeenRow(names, row)) else Bad(names, SeenRow(names, row))
  {
    hide Good, Bad, ReadableCondition, SafeCondition, KnowsFields, SeenItem;
    match row
    case TermRow(join, term) =>
      ConditionSeen(names, join, term);
    case GroupRow(_, _, _, children) =>
      SafeLive(names, row);
      if ReadableRow(names, row) {
        GroupGood(names, row);
      } else {
        var k := FirstWithout(t => ReadableCondition(names, t), LiveConditions(children));
        GroupBad(names, row, k);
      }
  }

  lemma RowIsPrinted(row: Row)
    ensures LiveRow(row) <==> PrintRow(row).Some?
    ensures LiveRow(row) ==> PrintRow(row) == Some(RowItem(row).text) && RowItem(row).join == row.join
  {
    if row.GroupRow? {
      GroupText(row);
    } else {
      LiveIsPrinted();
    }
  }

  function LaterTexts(items: seq<Item>): seq<string> {
    seq(|items|, k requires 0 <= k < |items| => JoinPrefix(items[k].join) + items[k].text)
  }

  lemma {:induction false} JoinedLater(x: string, items: seq<Item>)
    ensures JoinWith(" ", [x] + LaterTexts(items)) == x + TailText(items)
    decreases |items|
  {
    if items == [] {
      assert [x] + LaterTexts(items) == [x];
    } else {
      var j, text, tail := JoinPrefix(items[0].join), items[0].text, TailText(items[1..]);
      var texts := [j + text] + LaterTexts(items[1..]);
      assert LaterTexts(items) == texts;
      JoinedLater(j + text, items[1..]);
      JoinWithCons(" ", x, texts);
      Respace(x, j, text, tail);
    }
  }

  lemma Respace(x: string, j: string, text: string, tail: string)
    ensures x + " " + (j + text + tail) == x + (" " + j + text + tail)
  {
    Assoc4("", " ", j, text, tail);
    Regroup(j, text, tail);
    Regroup(x, " ", j + text + tail);
    assert " " + j + text + tail == " " + (j + text + tail);
  }

  lemma JoinWithCons(sep: string, x: string, xs: seq<string>)
    requires xs != []
    ensures JoinWith(sep, [x] + xs) == x + sep + JoinWith(sep, xs)
  {
    assert ([x] + xs)[1..] == xs;
  }

  lemma LaterRowsPrinted(rows: seq<Row>)
    ensures Present(PrintLaterRow, rows) == LaterTexts(RowItems(LiveRows(rows)))
  {
    hide RowItem, LiveRow, PrintRow;
    var live := LiveRows(rows);
    var items := RowItems(live);
    forall row: Row
      ensures LiveRow(row) <==> PrintLaterRow(row).Some?
    {
      RowIsPrinted(row);
    }
    PresentKeep(PrintLaterRow, LiveRow, rows);
    PresentAll(PrintLaterRow, live);
    forall k | 0 <= k < |live|
      ensures PrintLaterRow(live[k]) == Some(LaterTexts(items)[k])
    {
      RowIsPrinted(live[k]);
    }
    assert Present(PrintLaterRow, live) == LaterTexts(items);
  }

  lemma PrintedFirst(row: Row, rows: seq<Row>)
    requires LiveRow(row)
    ensures LiveRows([row] + rows) == [row] + LiveRows(rows)
    ensures Print([row] + rows) == ListText(RowItems([row] + LiveRows(rows)))
  {
    hide RowItem, LiveRow, PrintRow;
    var all := [row] + rows;
    assert all[..1] == [row] && all[1..] == rows && [row][1..] == [];
    RowIsPrinted(row);
    assert Present(PrintRow, [row]) == [RowItem(row).text];
    LaterRowsPrinted(rows);
    JoinedLater(RowItem(row).text, RowItems(LiveRows(rows)));
    assert RowItems([row] + LiveRows(rows))[1..] == RowItems(LiveRows(rows));
  }

  lemma PrintedWithoutFirst(row: Row, rows: seq<Row>)
    requires !LiveRow(row)
    ensures LiveRows([row] + rows) == LiveRows(rows)
    ensures var items := RowItems(LiveRows(rows));
      Print([row] + rows) == if items == [] then "" else JoinPrefix(items[0].join) + ListText(items)
  {
    hide RowItem, LiveRow, PrintRow;
    var all := [row] + rows;
    assert all[..1] == [row] && all[1..] == rows && [row][1..] == [];
    RowIsPrinted(row);
    assert Present(PrintRow, [row]) == [];
    LaterRowsPrinted(rows);
    var items := RowItems(LiveRows(rows));
    assert [] + LaterTexts(items) == LaterTexts(items);
    if items != [] {
      LaterJoined(items);
    }
  }

  lemma LaterJoined(items: seq<Item>)
    requires items != []
    ensures JoinWith(" ", LaterTexts(items)) == JoinPrefix(items[0].join) + ListText(items)
  {
    var y := JoinPrefix(items[0].join) + items[0].text;
    assert LaterTexts(items) == [y] + LaterTexts(items[1..]);
    JoinedLater(y, items[1..]);
    Regroup(JoinPrefix(items[0].join), items[0].text, TailText(items[1..]));
  }

  /** What is printed, in terms of the live rows. */
  lemma PrintedText(rows: seq<Row>)
    ensures var items := RowItems(LiveRows(rows));
      Print(rows) ==
      if items == [] then ""
      else if LiveRow(rows[0]) then ListText(items)
      else JoinPrefix(items[0].join) + ListText(items)
  {
    hide RowItem, LiveRow, PrintRow;
    if rows != [] {
      assert rows == [rows[0]] + rows[1..];
      if LiveRow(rows[0]) {
        PrintedFirst(rows[0], rows[1..]);
      } else {
        PrintedWithoutFirst(rows[0], rows[1..]);
      }
    }
  }

  // ---- the round trip ----

  function RowsAst(rows: seq<Row>): Option<Ast> {
    var items := RowItems(LiveRows(rows));
    if items == [] then None else Some(FoldAll(items))
  }

  /** No row is live, or the first one is and every condition is safe. */
  predicate Acceptable(names: Names, rows: seq<Row>) {
    LiveRows(rows) == [] ||
    (LiveRow(rows[0]) && forall k :: 0 <= k < |rows| ==> SafeRow(names, rows[k]))
  }

  function ParsePrinted(names: Names, rows: seq<Row>): Result<Option<Ast>, ParseError> {
    ParseLexed(names, Lex(Browser, Print(rows)))
  }

  lemma DeadRowIsSafe(names: Names, row: Row)
    requires !LiveRow(row)
    ensures SafeRow(names, row) && ReadableRow(names, row)
  {
    if row.GroupRow? {
      SafeLive(names, row);
    }
  }

  lemma LiveRowsAreRows(rows: seq<Row>, k: nat)
    requires k < |LiveRows(rows)|
    ensures LiveRow(LiveRows(rows)[k]) && LiveRows(rows)[k] in rows
  {
  }

  /** The first live row with an unreadable condition. */
  lemma FirstUnreadable(names: Names, rows: seq<Row>, bad: nat) returns (k: nat)
    requires bad < |rows| && !ReadableRow(names, rows[bad])
    ensures k < |LiveRows(rows)| && !ReadableRow(names, LiveRows(rows)[k])
    ensures forall i :: 0 <= i < k ==> ReadableRow(names, LiveRows(rows)[i])
  {
    hide LiveRow, SafeRow, ReadableRow;
    if !LiveRow(rows[bad]) {
      DeadRowIsSafe(names, rows[bad]);
    }
    KeepHas(LiveRow, rows, bad);
    k := FirstWithout(row => ReadableRow(names, row), LiveRows(rows));
  }

  lemma ReadNothing()
    ensures Read("") == Tokens([])
  {
  }

  /** Seen units have the texts of the printed ones. */
  lemma SeenRowsText(names: Names, rows: seq<Row>)
    requires rows != []
    ensures ListText(SeenRows(names, rows)) == ListText(RowItems(rows))
  {
    hide SeenItem, ConditionItem;
    forall k | 0 <= k < |rows|
      ensures SeenRow(names, rows[k]).text == RowItem(rows[k]).text && SeenRow(names, rows[k]).join == RowItem(rows[k]).join
    {
      SeenRowText(names, rows[k]);
    }
    SameText(SeenRows(names, rows), RowItems(rows));
  }

  lemma SeenRowText(names: Names, row: Row)
    ensures SeenRow(names, row).text == RowItem(row).text && SeenRow(names, row).join == RowItem(row).join
  {
    hide PrintRow, Misread, SafeCondition, FoldAll, ConditionAst;
  }

  /** No row is live, or the first one is and every condition comes back in some way. */
  predicate Readable(names: Names, rows: seq<Row>) {
    LiveRows(rows) == [] || (LiveRow(rows[0]) && forall k :: 0 <= k < |rows| ==> ReadableRow(names, rows[k]))
  }

  /** The tree the browser makes of readable rows. */
  function SeenAst(names: Names, rows: seq<Row>): Option<Ast> {
    var items := SeenRows(names, LiveRows(rows));
    if items == [] then None else Some(FoldAll(items))
  }

  lemma ReadableRowsParse(names: Names, rows: seq<Row>)
    requires KnowsFields(names) && LiveRows(rows) != [] && LiveRow(rows[0])
    requires forall k :: 0 <= k < |rows| ==> ReadableRow(names, rows[k])
    ensures ParsePrinted(names, rows) == Success(SeenAst(names, rows))
  {
    hide RowItem, SeenRow, LiveRow, ReadableRow, Print, ParseOr, Lex, Good, Fold, KnowsFields;
    var live := LiveRows(rows);
    var items := SeenRows(names, live);
    forall k | 0 <= k < |items|
      ensures Good(names, items[k])
    {
      LiveRowsAreRows(rows, k);
      RowGoodOrBad(names, live[k]);
    }
    PrintedText(rows);
    SeenRowsText(names, live);
    ListGood(names, items, "");
    ReadNothing();
    assert ListText(items) + "" == ListText(items);
    var toks := items[0].toks + ItemsTokens(items[1..]);
    assert toks + [] == toks;
    ListParses(names, items, []);
  }

  lemma DoomedFails(names: Names, r: Lexed)
    requires r.Tokens? ==> r.ts != [] && Doomed(ParseOr(names, r.ts))
    ensures ParseLexed(names, r).Failure?
  {
  }

  lemma RowsUpTo(names: Names, rows: seq<Row>, k: nat)
    requires KnowsFields(names) && k < |LiveRows(rows)| && !ReadableRow(names, LiveRows(rows)[k])
    requires forall i :: 0 <= i < k ==> ReadableRow(names, LiveRows(rows)[i])
    ensures forall i :: 0 <= i < k ==> Good(names, SeenRows(names, LiveRows(rows))[i])
    ensures Bad(names, SeenRows(names, LiveRows(rows))[k])
  {
    hide SeenRow, LiveRow, ReadableRow, Good, Bad, KnowsFields;
    forall i | 0 <= i <= k
      ensures var it := SeenRows(names, LiveRows(rows))[i]; if i < k then Good(names, it) else Bad(names, it)
    {
      LiveRowsAreRows(rows, i);
      RowGoodOrBad(names, LiveRows(rows)[i]);
    }
  }

  lemma SpoiledItems(names: Names, items: seq<Item>, k: nat)
    requires k < |items| && Bad(names, items[k])
    requires forall i :: 0 <= i < k ==> Good(names, items[i])
    ensures ParseLexed(names, Read(ListText(items))).Failure?
  {
    ReadNothing();
    ListSpoiled(names, items, k, "");
    assert ListText(items) + "" == ListText(items);
    DoomedFails(names, Read(ListText(items)));
  }

  lemma SpoiledRows(names: Names, rows: seq<Row>, bad: nat)
    requires KnowsFields(names) && LiveRows(rows) != [] && LiveRow(rows[0])
    requires bad < |rows| && !ReadableRow(names, rows[bad])
    ensures ParsePrinted(names, rows).Failure?
  {
    hide RowItem, SeenRow, LiveRow, ReadableRow, Print, Good, Bad, ParseLexed, KnowsFields;
    var k := FirstUnreadable(names, rows, bad);
    RowsUpTo(names, rows, k);
    SpoiledItems(names, SeenRows(names, LiveRows(rows)), k);
    SeenRowsText(names, LiveRows(rows));
    PrintedText(rows);
  }

  lemma LeadingJoinFails(names: Names, t: Token, r: Lexed)
    requires t.And? || t.Or?
    ensures ParseLexed(names, Prepend([t], r)).Failure?
  {
    if r.Tokens? {
      var ts := [t] + r.ts;
      assert ParseUnary(names, ts) == Err(ExpectedCondition);
      ParseOrLoops(names, ts);
    }
  }

  lemma LeadingJoin(names: Names, rows: seq<Row>)
    requires LiveRows(rows) != [] && !LiveRow(rows[0])
    ensures ParsePrinted(names, rows).Failure?
  {
    var items := RowItems(LiveRows(rows));
    PrintedText(rows);
    ReadJoin(items[0].join, ListText(items));
    LeadingJoinFails(names, if items[0].join.JoinAnd? then And else Or, Read(ListText(items)));
  }

  // ---- a misread condition changes the tree ----

  lemma {:induction false} FoldIsInjective(a: seq<Item>, b: seq<Item>, oa: Option<Ast>, ob: Option<Ast>, ca: Ast, cb: Ast)
    requires |a| == |b| && (oa.None? <==> ob.None?) && forall k :: 0 <= k < |a| ==> a[k].join == b[k].join
    ensures Fold(oa, ca, a) == Fold(ob, cb, b) <==> oa == ob && ca == cb && forall k :: 0 <= k < |a| ==> a[k].ast == b[k].ast
    decreases |a|
  {
    if a != [] {
      assert a[0].join == b[0].join;
      if a[0].join.JoinAnd? {
        FoldIsInjective(a[1..], b[1..], oa, ob, AndE(ca, a[0].ast), AndE(cb, b[0].ast));
      } else {
        FoldIsInjective(a[1..], b[1..], Some(Combine(oa, ca)), Some(Combine(ob, cb)), a[0].ast, b[0].ast);
      }
      var rest := forall k :: 0 <= k < |a| - 1 ==> a[1..][k].ast == b[1..][k].ast;
      assert forall k :: 1 <= k < |a| ==> a[k] == a[1..][k - 1] && b[k] == b[1..][k - 1];
      assert forall k :: 0 <= k < |a| - 1 ==> a[k + 1] == a[1..][k] && b[k + 1] == b[1..][k];
    }
  }

  lemma SameTree(a: seq<Item>, b: seq<Item>)
    requires a != [] && |a| == |b| && forall k :: 0 <= k < |a| ==> a[k].join == b[k].join
    ensures FoldAll(a) == FoldAll(b) <==> forall k :: 0 <= k < |a| ==> a[k].ast == b[k].ast
  {
    hide Fold;
    FoldIsInjective(a[1..], b[1..], None, None, a[0].ast, b[0].ast);
    assert forall k :: 1 <= k < |a| ==> a[k] == a[1..][k - 1] && b[k] == b[1..][k - 1];
    assert forall k :: 0 <= k < |a| - 1 ==> a[k + 1] == a[1..][k] && b[k + 1] == b[1..][k];
  }

  /** A readable condition is read with its own tree exactly when it is safe. */
  lemma SeenConditionTree(names: Names, j: Join, t: Condition)
    requires ReadableCondition(names, t)
    ensures SeenItem(names, j, t).ast == ConditionItem(j, t).ast <==> SafeCondition(names, t)
    ensures SeenItem(names, j, t).join == ConditionItem(j, t).join
  {
    hide Lex, NeedsQuotes, Trim, SafeCondition, PrintCondition;
  }

  lemma SeenGroupTree(names: Names, op: Join, live: seq<Condition>)
    requires live != [] && forall k :: 0 <= k < |live| ==> Live(live[k]) && ReadableCondition(names, live[k])
    ensures FoldAll(SeenItems(names, op, live)) == FoldAll(ConditionItems(op, live)) <==>
      forall k :: 0 <= k < |live| ==> SafeCondition(names, live[k])
  {
    hide SeenItem, ConditionItem, ReadableCondition, SafeCondition, FoldAll, Live;
    forall k | 0 <= k < |live|
      ensures SeenItems(names, op, live)[k].ast == ConditionItems(op, live)[k].ast <==> SafeCondition(names, live[k])
      ensures SeenItems(names, op, live)[k].join == ConditionItems(op, live)[k].join
    {
      SeenConditionTree(names, op, live[k]);
    }
    SameTree(SeenItems(names, op, live), ConditionItems(op, live));
  }

  lemma SeenRowTree(names: Names, row: Row)
    requires LiveRow(row) && ReadableRow(names, row)
    ensures SeenRow(names, row).ast == RowItem(row).ast <==> SafeRow(names, row)
  {
    hide SeenItem, ConditionItem, ReadableCondition, SafeCondition, FoldAll, PrintRow;
    match row
    case TermRow(join, term) =>
      SeenConditionTree(names, join, term);
    case GroupRow(_, _, op, children) =>
      hide LiveConditions, Live;
      SafeLive(names, row);
      SeenGroupTree(names, op, LiveConditions(children));
  }

  lemma SafeIsReadable(names: Names, row: Row)
    requires SafeRow(names, row)
    ensures ReadableRow(names, row)
  {
    hide SafeCondition, Misread;
  }

  /** The seen tree is that of the rows exactly when every condition is safe. */
  lemma SeenTree(names: Names, rows: seq<Row>)
    requires LiveRows(rows) != [] && forall k :: 0 <= k < |rows| ==> ReadableRow(names, rows[k])
    ensures SeenAst(names, rows) == RowsAst(rows) <==> forall k :: 0 <= k < |rows| ==> SafeRow(names, rows[k])
  {
    hide SeenRow, RowItem, SafeRow, ReadableRow, LiveRow, FoldAll;
    var live := LiveRows(rows);
    forall k | 0 <= k < |live|
      ensures SeenRows(names, live)[k].ast == RowItems(live)[k].ast <==> SafeRow(names, live[k])
      ensures SeenRows(names, live)[k].join == RowItems(live)[k].join
    {
      LiveRowsAreRows(rows, k);
      SeenRowTree(names, live[k]);
      SeenRowText(names, live[k]);
    }
    SameTree(SeenRows(names, live), RowItems(live));
    forall k | 0 <= k < |rows| && !SafeRow(names, rows[k])
      ensures rows[k] in live
    {
      if !LiveRow(rows[k]) {
        DeadRowIsSafe(names, rows[k]);
      }
      KeepHas(LiveRow, rows, k);
    }
    forall k | 0 <= k < |live|
      ensures live[k] in rows
    {
      LiveRowsAreRows(rows, k);
    }
  }

  /** The printed text is accepted exactly for readable rows, and then as their seen tree. */
  lemma ReadBack(names: Names, rows: seq<Row>)
    requires KnowsFields(names)
    ensures ParsePrinted(names, rows).Success? <==> Readable(names, rows)
    ensures Readable(names, rows) ==> ParsePrinted(names, rows) == Success(SeenAst(names, rows))
  {
    hide ReadableRow, ParsePrinted, KnowsFields;
    if LiveRows(rows) == [] {
      NothingPrinted(names, rows);
    } else if !LiveRow(rows[0]) {
      LeadingJoin(names, rows);
    } else if forall k :: 0 <= k < |rows| ==> ReadableRow(names, rows[k]) {
      ReadableRowsParse(names, rows);
    } else {
      var bad :| 0 <= bad < |rows| && !ReadableRow(names, rows[bad]);
      SpoiledRows(names, rows, bad);
    }
  }

  lemma NothingPrinted(names: Names, rows: seq<Row>)
    requires LiveRows(rows) == []
    ensures ParsePrinted(names, rows) == Success(None)
  {
    PrintedText(rows);
  }

  /**
   * The printed text is read back as the rows' own tree exactly when no row is live,
   * or the first row is live and every condition is safe.
   */
  lemma RoundTrip(names: Names, rows: seq<Row>)
    requires KnowsFields(names)
    ensures ParsePrinted(names, rows) == Success(RowsAst(rows)) <==> Acceptable(names, rows)
  {
    hide SafeRow, ReadableRow, ParsePrinted, KnowsFields, LiveRow;
    ReadBack(names, rows);
    if LiveRows(rows) != [] {
      if forall k :: 0 <= k < |rows| ==> ReadableRow(names, rows[k]) {
        SeenTree(names, rows);
      } else {
        var bad :| 0 <= bad < |rows| && !ReadableRow(names, rows[bad]);
        if SafeRow(names, rows[bad]) {
          SafeIsReadable(names, rows[bad]);
        }
      }
    }
  }
}
