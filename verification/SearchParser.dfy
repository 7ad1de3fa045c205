/**
 * The recursive-descent parser of the map search language. Browser and server
 * have the same grammar; what differs is how they recognise a field name and the
 * word "contains", which is the Names parameter.
 */
module SearchParser {
  import opened Common
  import opened SearchLexer

  datatype Field =
    | All | Ip | Port | Country | City | Action | Device
    | SrcIp | DstIp | SrcPort | DstPort | SrcCountry | DstCountry | SrcCity | DstCity
    | Src | Dst | Proto | Zone

  datatype Op = OpContains | OpEq | OpNe

  datatype Ast =
    | Term(field: Field, op: Op, value: string)
    | NotE(expr: Ast)
    | AndE(left: Ast, right: Ast)
    | OrE(left: Ast, right: Ast)

  datatype ParseError = ExpectedValue | ExpectedCondition | MissingParen | ExtraTokens | UnknownField(word: string) | BadText

  /** field resolves a word to a search field; contains recognises the operator word. */
  datatype Names = Names(field: string -> Option<Field>, contains: string -> bool)

  datatype Parsed = Ok(ast: Ast, rest: seq<Token>) | Err(error: ParseError)

  predicate StartsPrimary(ts: seq<Token>) {
    ts != [] && (ts[0].Word? || ts[0].Str? || ts[0].LParen? || ts[0].Not?)
  }

  predicate StartsOp(names: Names, ts: seq<Token>) {
    ts != [] && (ts[0].Colon? || ts[0].Equals? || ts[0].NotEquals? || (ts[0].Word? && names.contains(ts[0].value)))
  }

  function OpOf(t: Token): Op {
    if t.Equals? then OpEq else if t.NotEquals? then OpNe else OpContains
  }

  /** The operator and the value after a field name. */
  function ParseFieldTerm(field: Field, ts: seq<Token>): (r: Parsed)
    requires ts != []
    ensures r.Ok? ==> |r.rest| < |ts|
  {
    if |ts| > 1 && (ts[1].Word? || ts[1].Str?) then Ok(Term(field, OpOf(ts[0]), ts[1].value), ts[2..])
    else Err(ExpectedValue)
  }

  function ParsePrimary(names: Names, ts: seq<Token>): (r: Parsed)
    ensures r.Ok? ==> |r.rest| < |ts|
    decreases |ts|, 0
  {
    if ts == [] then Err(ExpectedCondition)
    else match ts[0]
      case LParen =>
        (match ParseOr(names, ts[1..])
         case Err(e) => Err(e)
         case Ok(ast, rest) =>
           if rest != [] && rest[0].RParen? then Ok(ast, rest[1..]) else Err(MissingParen))
      case Word(w) =>
        var field := names.field(w);
        if field.Some? && field.value != All && StartsOp(names, ts[1..]) then ParseFieldTerm(field.value, ts[1..])
        else if field.None? then Err(UnknownField(w))
        else Ok(Term(All, OpContains, w), ts[1..])
      case Str(v) => Ok(Term(All, OpContains, v), ts[1..])
      case _ => Err(ExpectedCondition)
  }

  function ParseUnary(names: Names, ts: seq<Token>): (r: Parsed)
    ensures r.Ok? ==> |r.rest| < |ts|
    decreases |ts|, 1
  {
    if ts != [] && ts[0].Not? then
      match ParseUnary(names, ts[1..])
      case Err(e) => Err(e)
      case Ok(ast, rest) => Ok(NotE(ast), rest)
    else ParsePrimary(names, ts)
  }

  /** The loop of parseAnd, entered with the tree built so far. */
  function AndTail(names: Names, left: Ast, ts: seq<Token>): (r: Parsed)
    ensures r.Ok? ==> |r.rest| <= |ts|
    decreases |ts|, 2
  {
    if ts != [] && ts[0].And? then
      match ParseUnary(names, ts[1..])
      case Err(e) => Err(e)
      case Ok(right, rest) => AndTail(names, AndE(left, right), rest)
    else if StartsPrimary(ts) then
      match ParseUnary(names, ts)
      case Err(e) => Err(e)
      case Ok(right, rest) => AndTail(names, AndE(left, right), rest)
    else Ok(left, ts)
  }

  function ParseAnd(names: Names, ts: seq<Token>): (r: Parsed)
    ensures r.Ok? ==> |r.rest| < |ts|
    decreases |ts|, 3
  {
    match ParseUnary(names, ts)
    case Err(e) => Err(e)
    case Ok(left, rest) => AndTail(names, left, rest)
  }

  /** The loop of parseOr, entered with the tree built so far. */
  function OrTail(names: Names, left: Ast, ts: seq<Token>): (r: Parsed)
    ensures r.Ok? ==> |r.rest| <= |ts|
    decreases |ts|, 4
  {
    if ts != [] && ts[0].Or? then
      match ParseAnd(names, ts[1..])
      case Err(e) => Err(e)
      case Ok(right, rest) => OrTail(names, OrE(left, right), rest)
    else Ok(left, ts)
  }

  function ParseOr(names: Names, ts: seq<Token>): (r: Parsed)
    ensures r.Ok? ==> |r.rest| < |ts|
    decreases |ts|, 5
  {
    match ParseAnd(names, ts)
    case Err(e) => Err(e)
    case Ok(left, rest) => OrTail(names, left, rest)
  }

  /** A whole token list; the empty one is no query at all. */
  function ParseTokens(names: Names, ts: seq<Token>): Result<Option<Ast>, ParseError> {
    if ts == [] then Success(None)
    else match ParseOr(names, ts)
      case Err(e) => Failure(e)
      case Ok(ast, rest) => if rest == [] then Success(Some(ast)) else Failure(ExtraTokens)
  }

  function ParseLexed(names: Names, r: Lexed): Result<Option<Ast>, ParseError> {
    match r
    case Tokens(ts) => ParseTokens(names, ts)
    case _ => Failure(BadText)
  }

  // ---- the parser object: one index moved over the tokens ----

  class Parser {
    const names: Names
    const tokens: seq<Token>
    var idx: nat

    ghost predicate Valid()
      reads this
    {
      idx <= |tokens|
    }

    constructor (names: Names, tokens: seq<Token>)
      ensures Valid() && this.names == names && this.tokens == tokens && idx == 0
    {
      this.names, this.tokens, idx := names, tokens, 0;
    }

    /** What a parsing method promises: it ends as the grammar function does on the remaining tokens. */
    ghost predicate Follows(r: Result<Ast, ParseError>, p: Parsed)
      requires Valid()
      reads this
    {
      match p
      case Ok(ast, rest) => r == Success(ast) && rest == tokens[idx..]
      case Err(e) => r == Failure(e)
    }

    method PrimaryAt() returns (r: Result<Ast, ParseError>)
      requires Valid()
      modifies this
      ensures Valid()
      ensures Follows(r, ParsePrimary(names, old(tokens[idx..])))
      decreases |tokens| - idx, 0
    {
      ghost var ts := tokens[idx..];
      if idx == |tokens| {
        return Failure(ExpectedCondition);
      }
      var head := tokens[idx];
      assert ts[0] == head && ts[1..] == tokens[idx + 1..];
      if head.LParen? {
        idx := idx + 1;
        r := OrAt();
        if r.Success? {
          if idx < |tokens| && tokens[idx].RParen? {
            idx := idx + 1;
          } else {
            r := Failure(MissingParen);
          }
        }
        return;
      }
      if !head.Word? && !head.Str? {
        return Failure(ExpectedCondition);
      }
      idx := idx + 1;
      if head.Word? {
        var field := names.field(head.value);
        if field.Some? && field.value != All && idx < |tokens| {
          var op := tokens[idx];
          if op.Colon? || op.Equals? || op.NotEquals? || (op.Word? && names.contains(op.value)) {
            idx := idx + 1;
            if idx < |tokens| && (tokens[idx].Word? || tokens[idx].Str?) {
              idx := idx + 1;
              return Success(Term(field.value, OpOf(op), tokens[idx - 1].value));
            }
            return Failure(ExpectedValue);
          }
        }
        if field.None? {
          return Failure(UnknownField(head.value));
        }
      }
      r := Success(Term(All, OpContains, head.value));
    }

    method UnaryAt() returns (r: Result<Ast, ParseError>)
      requires Valid()
      modifies this
      ensures Valid()
      ensures Follows(r, ParseUnary(names, old(tokens[idx..])))
      decreases |tokens| - idx, 1
    {
      if idx < |tokens| && tokens[idx].Not? {
        assert tokens[idx..][1..] == tokens[idx + 1..];
        idx := idx + 1;
        r := UnaryAt();
        if r.Success? {
          r := Success(NotE(r.value));
        }
      } else {
        r := PrimaryAt();
      }
    }

    /** One turn of the parseAnd loop: the AND is optional, the condition is not. */
    method AndTurn(left: Ast) returns (r: Result<Ast, ParseError>)
      requires Valid() && idx < |tokens| && (tokens[idx].And? || StartsPrimary(tokens[idx..]))
      modifies this
      ensures Valid()
      ensures r.Success? ==> old(idx) < idx
      ensures AndTail(names, left, old(tokens[idx..])) ==
        if r.Success? then AndTail(names, r.value, tokens[idx..]) else Err(r.error)
      decreases |tokens| - idx, 2, 0
    {
      assert tokens[idx..][1..] == tokens[idx + 1..];
      if tokens[idx].And? {
        idx := idx + 1;
      }
      ghost var ts := tokens[idx..];
      r := UnaryAt();
      assert r.Success? ==> |tokens[idx..]| < |ts|;
      if r.Success? {
        r := Success(AndE(left, r.value));
      }
    }

    method AndAt() returns (r: Result<Ast, ParseError>)
      requires Valid()
      modifies this
      ensures Valid()
      ensures Follows(r, ParseAnd(names, old(tokens[idx..])))
      decreases |tokens| - idx, 3
    {
      ghost var goal := ParseAnd(names, tokens[idx..]);
      r := UnaryAt();
      while r.Success? && idx < |tokens| && (tokens[idx].And? || StartsPrimary(tokens[idx..]))
        invariant Valid()
        invariant r.Success? ==> goal == AndTail(names, r.value, tokens[idx..])
        invariant r.Failure? ==> goal == Err(r.error)
        decreases r.Success?, |tokens| - idx
      {
        r := AndTurn(r.value);
      }
    }

    /** One turn of the parseOr loop. */
    method OrTurn(left: Ast) returns (r: Result<Ast, ParseError>)
      requires Valid() && idx < |tokens| && tokens[idx].Or?
      modifies this
      ensures Valid()
      ensures r.Success? ==> old(idx) < idx
      ensures OrTail(names, left, old(tokens[idx..])) ==
        if r.Success? then OrTail(names, r.value, tokens[idx..]) else Err(r.error)
      decreases |tokens| - idx, 4, 0
    {
      assert tokens[idx..][1..] == tokens[idx + 1..];
      idx := idx + 1;
      ghost var ts := tokens[idx..];
      r := AndAt();
      assert r.Success? ==> |tokens[idx..]| < |ts|;
      if r.Success? {
        r := Success(OrE(left, r.value));
      }
    }

    method OrAt() returns (r: Result<Ast, ParseError>)
      requires Valid()
      modifies this
      ensures Valid()
      ensures Follows(r, ParseOr(names, old(tokens[idx..])))
      decreases |tokens| - idx, 5
    {
      ghost var goal := ParseOr(names, tokens[idx..]);
      r := AndAt();
      while r.Success? && idx < |tokens| && tokens[idx].Or?
        invariant Valid()
        invariant r.Success? ==> goal == OrTail(names, r.value, tokens[idx..])
        invariant r.Failure? ==> goal == Err(r.error)
        decreases r.Success?, |tokens| - idx
      {
        r := OrTurn(r.value);
      }
    }
  }

  /** Tokenizes and parses a text; leftover tokens are an error. */
  method ParseQuery(d: Dialect, names: Names, raw: string) returns (r: Result<Option<Ast>, ParseError>)
    ensures r == ParseLexed(names, Lex(d, raw))
  {
    var lexed := Tokenize(d, raw);
    if !lexed.Tokens? {
      return Failure(BadText);
    }
    if lexed.ts == [] {
      return Success(None);
    }
    var p := new Parser(names, lexed.ts);
    assert lexed.ts[0..] == lexed.ts;
    var ast := p.OrAt();
    if ast.Failure? {
      return Failure(ast.error);
    }
    if p.idx < |lexed.ts| {
      return Failure(ExtraTokens);
    }
    r := Success(Some(ast.value));
  }

  // ---- juxtaposition means AND ----

  function DropAnds(ts: seq<Token>): (r: seq<Token>)
    ensures |r| <= |ts|
  {
    if ts == [] then [] else (if ts[0].And? then [] else [ts[0]]) + DropAnds(ts[1..])
  }

  /** The operator word is not itself a field name. */
  ghost predicate ContainsIsNoField(names: Names) {
    forall w :: names.contains(w) ==> names.field(w).None?
  }

  /** What follows does not change when its AND tokens are dropped, as far as one look-ahead can see. */
  ghost predicate Settled(names: Names, ts: seq<Token>) {
    ts != [] && ts[0].And? ==> StartsPrimary(ts[1..]) && !StartsOp(names, ts[1..])
  }

  lemma DropAndsCons(ts: seq<Token>)
    requires ts != [] && !ts[0].And?
    ensures DropAnds(ts) == [ts[0]] + DropAnds(ts[1..])
    ensures DropAnds(ts) != [] && DropAnds(ts)[0] == ts[0] && DropAnds(ts)[1..] == DropAnds(ts[1..])
  {
  }

  lemma DropAndsLook(names: Names, ts: seq<Token>)
    requires Settled(names, ts)
    ensures StartsOp(names, DropAnds(ts)) == StartsOp(names, ts)
    ensures DropAnds(ts) != [] <==> ts != []
    ensures ts != [] && !ts[0].And? ==> DropAnds(ts)[0] == ts[0]
    ensures ts != [] && ts[0].And? ==> StartsPrimary(DropAnds(ts)) && DropAnds(ts) == DropAnds(ts[1..])
  {
    if ts != [] && ts[0].And? {
      DropAndsCons(ts[1..]);
    }
  }

  /** A condition that parses starts with something that is no operator. */
  lemma {:induction false} UnaryStart(names: Names, ts: seq<Token>)
    requires ContainsIsNoField(names) && ParseUnary(names, ts).Ok?
    ensures StartsPrimary(ts) && !StartsOp(names, ts)
  {
  }

  lemma DropFieldTerm(field: Field, ts: seq<Token>)
    requires ts != [] && !ts[0].And? && ParseFieldTerm(field, ts).Ok?
    ensures DropAnds(ts) != []
    ensures ParseFieldTerm(field, DropAnds(ts)) ==
      var p := ParseFieldTerm(field, ts); Ok(p.ast, DropAnds(p.rest))
  {
    DropAndsCons(ts);
    DropAndsCons(ts[1..]);
    assert ts[1..][1..] == ts[2..];
    assert DropAnds(ts) == [ts[0]] + ([ts[1]] + DropAnds(ts[2..]));
    assert DropAnds(ts)[2..] == DropAnds(ts[2..]);
  }

  lemma {:induction false} DropPrimary(names: Names, ts: seq<Token>)
    requires ContainsIsNoField(names)
    requires ParsePrimary(names, ts).Ok? && Settled(names, ParsePrimary(names, ts).rest)
    ensures ParsePrimary(names, DropAnds(ts)) == var p := ParsePrimary(names, ts); Ok(p.ast, DropAnds(p.rest))
    decreases |ts|, 0
  {
    DropAndsCons(ts);
    var p := ParsePrimary(names, ts);
    match ts[0]
    case LParen =>
      var q := ParseOr(names, ts[1..]);
      DropOr(names, ts[1..]);
      DropAndsCons(q.rest);
    case Word(w) =>
      var field := names.field(w);
      if field.Some? && field.value != All && StartsOp(names, ts[1..]) {
        DropFieldTerm(field.value, ts[1..]);
        DropAndsCons(ts[1..]);
      } else {
        DropAndsLook(names, ts[1..]);
      }
    case Str(_) =>
  }

  lemma {:induction false} DropUnary(names: Names, ts: seq<Token>)
    requires ContainsIsNoField(names)
    requires ParseUnary(names, ts).Ok? && Settled(names, ParseUnary(names, ts).rest)
    ensures ParseUnary(names, DropAnds(ts)) == var p := ParseUnary(names, ts); Ok(p.ast, DropAnds(p.rest))
    decreases |ts|, 1
  {
    UnaryStart(names, ts);
    DropAndsCons(ts);
    if ts[0].Not? {
      DropUnary(names, ts[1..]);
    } else {
      DropPrimary(names, ts);
    }
  }

  /** A tail that succeeds saw a settled continuation. */
  lemma {:induction false} AndTailSettled(names: Names, left: Ast, ts: seq<Token>)
    requires ContainsIsNoField(names) && AndTail(names, left, ts).Ok?
    ensures Settled(names, ts)
  {
    if ts != [] && ts[0].And? {
      UnaryStart(names, ts[1..]);
    }
  }

  lemma {:induction false} DropAndTail(names: Names, left: Ast, ts: seq<Token>)
    requires ContainsIsNoField(names) && AndTail(names, left, ts).Ok?
    ensures AndTail(names, left, DropAnds(ts)) == var p := AndTail(names, left, ts); Ok(p.ast, DropAnds(p.rest))
    decreases |ts|, 2
  {
    AndTailSettled(names, left, ts);
    DropAndsLook(names, ts);
    if ts != [] && (ts[0].And? || StartsPrimary(ts)) {
      var from := if ts[0].And? then ts[1..] else ts;
      var q := ParseUnary(names, from);
      AndTailSettled(names, AndE(left, q.ast), q.rest);
      DropUnary(names, from);
      DropAndTail(names, AndE(left, q.ast), q.rest);
    }
  }

  lemma {:induction false} AndTailEnd(names: Names, left: Ast, ts: seq<Token>)
    requires AndTail(names, left, ts).Ok?
    ensures var rest := AndTail(names, left, ts).rest; rest != [] ==> !rest[0].And? && !StartsPrimary(rest)
    decreases |ts|
  {
    if ts != [] && (ts[0].And? || StartsPrimary(ts)) {
      var q := ParseUnary(names, if ts[0].And? then ts[1..] else ts);
      AndTailEnd(names, AndE(left, q.ast), q.rest);
    }
  }

  lemma {:induction false} DropAnd(names: Names, ts: seq<Token>)
    requires ContainsIsNoField(names) && ParseAnd(names, ts).Ok?
    ensures ParseAnd(names, DropAnds(ts)) == var p := ParseAnd(names, ts); Ok(p.ast, DropAnds(p.rest))
    decreases |ts|, 3
  {
    var q := ParseUnary(names, ts);
    AndTailSettled(names, q.ast, q.rest);
    DropUnary(names, ts);
    DropAndTail(names, q.ast, q.rest);
  }

  lemma {:induction false} DropOrTail(names: Names, left: Ast, ts: seq<Token>)
    requires ContainsIsNoField(names) && OrTail(names, left, ts).Ok?
    requires ts != [] ==> !ts[0].And?
    ensures OrTail(names, left, DropAnds(ts)) == var p := OrTail(names, left, ts); Ok(p.ast, DropAnds(p.rest))
    decreases |ts|, 4
  {
    if ts != [] {
      DropAndsCons(ts);
      if ts[0].Or? {
        var q := ParseAnd(names, ts[1..]);
        DropAnd(names, ts[1..]);
        var u := ParseUnary(names, ts[1..]);
        AndTailEnd(names, u.ast, u.rest);
        DropOrTail(names, OrE(left, q.ast), q.rest);
      }
    }
  }

  lemma {:induction false} DropOr(names: Names, ts: seq<Token>)
    requires ContainsIsNoField(names) && ParseOr(names, ts).Ok?
    ensures ParseOr(names, DropAnds(ts)) == var p := ParseOr(names, ts); Ok(p.ast, DropAnds(p.rest))
    decreases |ts|, 5
  {
    var q := ParseAnd(names, ts);
    DropAnd(names, ts);
    var u := ParseUnary(names, ts);
    AndTailEnd(names, u.ast, u.rest);
    DropOrTail(names, q.ast, q.rest);
  }

  /** Deleting the AND tokens of an accepted query changes nothing: juxtaposition means AND. */
  lemma JuxtapositionMeansAnd(names: Names, ts: seq<Token>)
    requires ContainsIsNoField(names)
    requires ParseTokens(names, ts).Success?
    ensures ParseTokens(names, DropAnds(ts)) == ParseTokens(names, ts)
  {
    if ts != [] {
      DropOr(names, ts);
      UnaryStart(names, ts);
      DropAndsCons(ts);
    }
  }
}
