/** The grammar of the map search language as a relation, and the parser against it. */
module SearchGrammar {
  import opened Common
  import opened SearchLexer
  import opened SearchParser

  // ---- which token lists a tree stands for ----

  /** A known word or a string alone, or a field with an operator and a value. */
  predicate IsTerm(names: Names, ast: Ast, ts: seq<Token>) {
    (|ts| == 1 && (ts[0].Str? || (ts[0].Word? && names.field(ts[0].value).Some?)) && ast == Term(All, OpContains, ts[0].value)) ||
    (|ts| == 3 && ts[0].Word? && names.field(ts[0].value).Some? && names.field(ts[0].value).value != All &&
     (ts[2].Word? || ts[2].Str?) && ast.Term? && IsOperator(names, ts[1], ast.op) &&
     ast.field == names.field(ts[0].value).value && ast.value == ts[2].value)
  }

  /** A colon or the word "contains" for contains, one equals sign for eq, the crossed one for ne. */
  predicate IsOperator(names: Names, t: Token, op: Op) {
    match op
    case OpContains => t.Colon? || (t.Word? && names.contains(t.value))
    case OpEq => t.Equals?
    case OpNe => t.NotEquals?
  }

  ghost predicate IsPrimary(names: Names, ast: Ast, ts: seq<Token>)
    decreases |ts|, 0
  {
    IsTerm(names, ast, ts) ||
    (|ts| >= 2 && ts[0].LParen? && ts[|ts| - 1].RParen? && IsOr(names, ast, ts[1..|ts| - 1]))
  }

  ghost predicate IsUnary(names: Names, ast: Ast, ts: seq<Token>)
    decreases |ts|, 1
  {
    IsPrimary(names, ast, ts) || (ts != [] && ts[0].Not? && ast.NotE? && IsUnary(names, ast.expr, ts[1..]))
  }

  /** Conditions side by side, with or without AND between them; the tree leans to the left. */
  ghost predicate IsAnd(names: Names, ast: Ast, ts: seq<Token>)
    decreases |ts|, 2
  {
    IsUnary(names, ast, ts) ||
    (ast.AndE? && exists k :: 0 < k < |ts| && IsAnd(names, ast.left, ts[..k]) && IsFactor(names, ast.right, ts[k..]))
  }

  /** One more condition, after an optional AND. */
  ghost predicate IsFactor(names: Names, ast: Ast, ts: seq<Token>)
    decreases |ts|, 2
  {
    IsUnary(names, ast, ts) || (ts != [] && ts[0].And? && IsUnary(names, ast, ts[1..]))
  }

  ghost predicate IsOr(names: Names, ast: Ast, ts: seq<Token>)
    decreases |ts|, 3
  {
    IsAnd(names, ast, ts) ||
    (ast.OrE? && exists k :: 0 < k < |ts| && ts[k].Or? && IsOr(names, ast.left, ts[..k]) && IsAnd(names, ast.right, ts[k + 1..]))
  }

  // ---- what the parser accepts follows the grammar ----

  lemma {:induction false} PrimarySound(names: Names, ts: seq<Token>) returns (used: seq<Token>)
    requires ParsePrimary(names, ts).Ok?
    ensures ts == used + ParsePrimary(names, ts).rest && IsPrimary(names, ParsePrimary(names, ts).ast, used)
    decreases |ts|, 0
  {
    var p := ParsePrimary(names, ts);
    if ts[0].LParen? {
      var inner := OrSound(names, ts[1..]);
      var rest := ParseOr(names, ts[1..]).rest;
      used := [ts[0]] + inner + [rest[0]];
      assert ts == [ts[0]] + ts[1..];
      assert used[1..|used| - 1] == inner;
    } else {
      used := ts[..|ts| - |p.rest|];
      TermSound(names, ts);
    }
  }

  lemma TermSound(names: Names, ts: seq<Token>)
    requires ParsePrimary(names, ts).Ok? && !ts[0].LParen?
    ensures var p := ParsePrimary(names, ts);
      p.rest == ts[|ts| - |p.rest|..] && IsTerm(names, p.ast, ts[..|ts| - |p.rest|])
  {
    hide ParseOr;
    var p := ParsePrimary(names, ts);
    if |p.rest| == |ts| - 1 {
      assert ts[..1] == [ts[0]];
    } else {
      assert ts[1..][2..] == ts[3..];
      assert ts[..3][1..][0] == ts[1..][0];
    }
  }

  lemma {:induction false} UnarySound(names: Names, ts: seq<Token>) returns (used: seq<Token>)
    requires ParseUnary(names, ts).Ok?
    ensures ts == used + ParseUnary(names, ts).rest && IsUnary(names, ParseUnary(names, ts).ast, used)
    decreases |ts|, 1
  {
    if ts != [] && ts[0].Not? {
      var inner := UnarySound(names, ts[1..]);
      used := [ts[0]] + inner;
      assert used[1..] == inner;
      assert ts == [ts[0]] + ts[1..];
    } else {
      used := PrimarySound(names, ts);
    }
  }

  lemma AndGrows(names: Names, left: Ast, before: seq<Token>, right: Ast, factor: seq<Token>)
    requires before != [] && IsAnd(names, left, before) && factor != [] && IsFactor(names, right, factor)
    ensures IsAnd(names, AndE(left, right), before + factor)
  {
    hide IsFactor, IsUnary;
    var all := before + factor;
    assert all[..|before|] == before && all[|before|..] == factor;
  }

  /** One turn of the loop of parseAnd. */
  lemma {:induction false} AndTurnSound(names: Names, left: Ast, ts: seq<Token>) returns (factor: seq<Token>, p: Parsed)
    requires AndTail(names, left, ts).Ok? && (StartsPrimary(ts) || (ts != [] && ts[0].And?))
    ensures p.Ok? && ts == factor + p.rest && factor != [] && IsFactor(names, p.ast, factor)
    ensures AndTail(names, left, ts) == AndTail(names, AndE(left, p.ast), p.rest)
    decreases |ts|, 2
  {
    hide IsUnary, ParseUnary;
    if ts[0].And? {
      var unary := UnarySound(names, ts[1..]);
      p := ParseUnary(names, ts[1..]);
      factor := [ts[0]] + unary;
      assert factor[1..] == unary;
      assert ts == [ts[0]] + ts[1..];
    } else {
      factor := UnarySound(names, ts);
      p := ParseUnary(names, ts);
      assert |p.rest| < |ts|;
    }
  }

  /** The loop of parseAnd extends a conjunction. */
  lemma {:induction false} AndTailSound(names: Names, left: Ast, before: seq<Token>, ts: seq<Token>) returns (used: seq<Token>)
    requires before != [] && IsAnd(names, left, before) && AndTail(names, left, ts).Ok?
    ensures ts == used + AndTail(names, left, ts).rest && IsAnd(names, AndTail(names, left, ts).ast, before + used)
    decreases |ts|, 3
  {
    hide IsFactor, IsAnd, ParseUnary;
    if StartsPrimary(ts) || (ts != [] && ts[0].And?) {
      var factor, p := AndTurnSound(names, left, ts);
      hide AndTail;
      AndGrows(names, left, before, p.ast, factor);
      var more := AndTailSound(names, AndE(left, p.ast), before + factor, p.rest);
      used := factor + more;
      assert before + factor + more == before + used;
    } else {
      used := [];
      assert before + [] == before;
    }
  }

  lemma {:induction false} AndSound(names: Names, ts: seq<Token>) returns (used: seq<Token>)
    requires ParseAnd(names, ts).Ok?
    ensures ts == used + ParseAnd(names, ts).rest && IsAnd(names, ParseAnd(names, ts).ast, used)
    decreases |ts|, 4
  {
    hide IsUnary, ParseUnary, AndTail;
    var first := UnarySound(names, ts);
    var p := ParseUnary(names, ts);
    assert |p.rest| < |ts|;
    assert IsAnd(names, p.ast, first);
    hide IsAnd;
    var more := AndTailSound(names, p.ast, first, p.rest);
    used := first + more;
  }

  lemma OrGrows(names: Names, left: Ast, before: seq<Token>, or: Token, right: Ast, after: seq<Token>)
    requires before != [] && IsOr(names, left, before) && or.Or? && IsAnd(names, right, after)
    ensures IsOr(names, OrE(left, right), before + [or] + after)
  {
    hide IsAnd;
    var all := before + [or] + after;
    var k := |before|;
    assert all[..k] == before && all[k] == or && all[k + 1..] == after;
  }

  lemma OrTailNext(names: Names, left: Ast, or: Token, right: Ast, after: seq<Token>, rest: seq<Token>)
    requires or.Or? && ParseAnd(names, after) == Ok(right, rest)
    ensures OrTail(names, left, [or] + after) == OrTail(names, OrE(left, right), rest)
  {
    hide ParseAnd;
    assert ([or] + after)[1..] == after;
  }

  /** One turn of the loop of parseOr. */
  lemma {:induction false} OrTurnSound(names: Names, left: Ast, ts: seq<Token>) returns (and: seq<Token>, p: Parsed)
    requires OrTail(names, left, ts).Ok? && ts != [] && ts[0].Or?
    ensures p.Ok? && ts == [ts[0]] + and + p.rest && IsAnd(names, p.ast, and)
    ensures OrTail(names, left, ts) == OrTail(names, OrE(left, p.ast), p.rest)
    decreases |ts|, 4
  {
    hide IsAnd, ParseAnd;
    and := AndSound(names, ts[1..]);
    p := ParseAnd(names, ts[1..]);
    assert ts == [ts[0]] + ts[1..];
  }

  lemma Consumed(before: seq<Token>, t: Token, a: seq<Token>, b: seq<Token>, rest: seq<Token>)
    ensures before + [t] + a + b == before + ([t] + a + b)
    ensures [t] + a + (b + rest) == [t] + a + b + rest
  {
  }

  /** The loop of parseOr extends a disjunction. */
  lemma {:induction false} OrTailSound(names: Names, left: Ast, before: seq<Token>, ts: seq<Token>) returns (used: seq<Token>)
    requires before != [] && IsOr(names, left, before) && OrTail(names, left, ts).Ok?
    ensures ts == used + OrTail(names, left, ts).rest && IsOr(names, OrTail(names, left, ts).ast, before + used)
    decreases |ts|, 5
  {
    hide IsOr, IsAnd, ParseAnd;
    if ts != [] && ts[0].Or? {
      hide OrTail;
      var and, p := OrTurnSound(names, left, ts);
      OrGrows(names, left, before, ts[0], p.ast, and);
      var more := OrTailSound(names, OrE(left, p.ast), before + [ts[0]] + and, p.rest);
      used := [ts[0]] + and + more;
      Consumed(before, ts[0], and, more, OrTail(names, left, ts).rest);
    } else {
      used := [];
      assert before + [] == before;
    }
  }

  lemma {:induction false} OrSound(names: Names, ts: seq<Token>) returns (used: seq<Token>)
    requires ParseOr(names, ts).Ok?
    ensures ts == used + ParseOr(names, ts).rest && IsOr(names, ParseOr(names, ts).ast, used)
    decreases |ts|, 6
  {
    hide IsAnd, IsUnary, ParseAnd, OrTail;
    var first := AndSound(names, ts);
    var p := ParseAnd(names, ts);
    assert |p.rest| < |ts|;
    assert IsOr(names, p.ast, first);
    hide IsOr;
    var more := OrTailSound(names, p.ast, first, p.rest);
    used := first + more;
  }

  // ---- what follows the grammar is accepted ----

  /** A condition begins with something that cannot be taken for an operator. */
  lemma {:induction false} UnaryBegins(names: Names, ast: Ast, ts: seq<Token>, rest: seq<Token>)
    requires ContainsIsNoField(names) && IsUnary(names, ast, ts)
    ensures ts != [] && StartsPrimary(ts + rest) && !StartsOp(names, ts + rest) && !(ts + rest)[0].And?
  {
    hide IsOr;
    assert ts != [];
    assert (ts + rest)[0] == ts[0];
  }

  lemma TermAccepted(names: Names, ast: Ast, ts: seq<Token>, rest: seq<Token>)
    requires IsTerm(names, ast, ts) && !StartsOp(names, rest)
    ensures ParsePrimary(names, ts + rest) == Ok(ast, rest)
  {
    hide ParseOr;
    var all := ts + rest;
    if |ts| == 1 {
      assert all[1..] == rest;
    } else {
      assert all[1..][0] == ts[1] && all[1..][1] == ts[2] && all[1..][2..] == rest;
      assert ts[1..][0] == ts[1];
    }
  }

  lemma {:induction false} PrimaryAccepted(names: Names, ast: Ast, ts: seq<Token>, rest: seq<Token>)
    requires ContainsIsNoField(names) && IsPrimary(names, ast, ts) && !StartsOp(names, rest)
    ensures ParsePrimary(names, ts + rest) == Ok(ast, rest)
    decreases |ts|, 0
  {
    if IsTerm(names, ast, ts) {
      TermAccepted(names, ast, ts, rest);
    } else {
      var inner, close := ts[1..|ts| - 1], ts[|ts| - 1];
      OrAccepted(names, ast, inner, [close] + rest);
      assert (ts + rest)[1..] == inner + ([close] + rest);
      assert ([close] + rest)[1..] == rest;
    }
  }

  lemma {:induction false} UnaryAccepted(names: Names, ast: Ast, ts: seq<Token>, rest: seq<Token>)
    requires ContainsIsNoField(names) && IsUnary(names, ast, ts) && !StartsOp(names, rest)
    ensures ParseUnary(names, ts + rest) == Ok(ast, rest)
    decreases |ts|, 1
  {
    if IsPrimary(names, ast, ts) {
      PrimaryAccepted(names, ast, ts, rest);
      assert ts[0] == (ts + rest)[0];
    } else {
      UnaryAccepted(names, ast.expr, ts[1..], rest);
      assert (ts + rest)[1..] == ts[1..] + rest;
    }
  }

  /** The loop of parseAnd takes one more condition. */
  lemma {:induction false} FactorAccepted(names: Names, left: Ast, ast: Ast, factor: seq<Token>, rest: seq<Token>)
    requires ContainsIsNoField(names) && IsFactor(names, ast, factor) && !StartsOp(names, rest)
    ensures !StartsOp(names, factor + rest)
    ensures AndTail(names, left, factor + rest) == AndTail(names, AndE(left, ast), rest)
    decreases |factor|, 2
  {
    hide IsUnary, ParseUnary;
    if IsUnary(names, ast, factor) {
      UnaryBegins(names, ast, factor, rest);
      UnaryAccepted(names, ast, factor, rest);
    } else {
      UnaryAccepted(names, ast, factor[1..], rest);
      assert (factor + rest)[0] == factor[0] && (factor + rest)[1..] == factor[1..] + rest;
    }
  }

  /** Parsing a conjunction leaves the loop of parseAnd with its tree and what follows. */
  lemma {:induction false} AndAccepted(names: Names, ast: Ast, ts: seq<Token>, rest: seq<Token>)
    requires ContainsIsNoField(names) && IsAnd(names, ast, ts) && !StartsOp(names, rest)
    ensures ParseAnd(names, ts + rest) == AndTail(names, ast, rest)
    decreases |ts|, 3
  {
    hide IsUnary, IsFactor, AndTail, ParseUnary;
    if IsUnary(names, ast, ts) {
      UnaryAccepted(names, ast, ts, rest);
    } else {
      hide ParseAnd;
      var k :| 0 < k < |ts| && IsAnd(names, ast.left, ts[..k]) && IsFactor(names, ast.right, ts[k..]);
      FactorAccepted(names, ast.left, ast.right, ts[k..], rest);
      AndAccepted(names, ast.left, ts[..k], ts[k..] + rest);
      assert ts[..k] + (ts[k..] + rest) == ts + rest;
    }
  }

  /** What may follow a whole query or a parenthesised one. */
  predicate Closes(rest: seq<Token>) {
    rest == [] || rest[0].Or? || rest[0].RParen?
  }

  /** A conjunction before the end, an OR or a closing parenthesis is parsed as a whole. */
  lemma {:induction false} WholeAnd(names: Names, ast: Ast, ts: seq<Token>, rest: seq<Token>)
    requires ContainsIsNoField(names) && IsAnd(names, ast, ts) && Closes(rest)
    ensures ParseAnd(names, ts + rest) == Ok(ast, rest)
    decreases |ts|, 4
  {
    hide IsAnd, ParseAnd, ParseUnary;
    AndAccepted(names, ast, ts, rest);
  }

  lemma AroundOr(ts: seq<Token>, k: nat, rest: seq<Token>)
    requires k < |ts| && ts[k].Or?
    ensures ts[..k] + ([ts[k]] + (ts[k + 1..] + rest)) == ts + rest && Closes([ts[k]] + (ts[k + 1..] + rest))
  {
  }

  lemma {:induction false} OrAccepted(names: Names, ast: Ast, ts: seq<Token>, rest: seq<Token>)
    requires ContainsIsNoField(names) && IsOr(names, ast, ts) && Closes(rest)
    ensures ParseOr(names, ts + rest) == OrTail(names, ast, rest)
    decreases |ts|, 5
  {
    hide IsAnd, ParseAnd, OrTail;
    if IsAnd(names, ast, ts) {
      WholeAnd(names, ast, ts, rest);
    } else {
      hide ParseOr;
      var k :| 0 < k < |ts| && ts[k].Or? && IsOr(names, ast.left, ts[..k]) && IsAnd(names, ast.right, ts[k + 1..]);
      var after := ts[k + 1..] + rest;
      hide IsOr, ContainsIsNoField;
      AroundOr(ts, k, rest);
      OrAccepted(names, ast.left, ts[..k], [ts[k]] + after);
      WholeAnd(names, ast.right, ts[k + 1..], rest);
      OrTailNext(names, ast.left, ts[k], ast.right, after, rest);
    }
  }

  /**
   * The parser accepts a token list with a tree exactly when the grammar derives all of
   * the list from the tree; in particular the tree is the only one.
   */
  lemma AcceptsExactlyTheGrammar(names: Names, ts: seq<Token>, ast: Ast)
    requires ContainsIsNoField(names) && ts != []
    ensures ParseTokens(names, ts) == Success(Some(ast)) <==> IsOr(names, ast, ts)
  {
    hide ParseOr, IsOr;
    if IsOr(names, ast, ts) {
      OrAccepted(names, ast, ts, []);
      assert ts + [] == ts;
    }
    if ParseTokens(names, ts) == Success(Some(ast)) {
      var used := OrSound(names, ts);
      assert used + [] == used;
    }
  }

  // ---- errors that name a word ----

  /** The word is one of the tokens, and names no field. */
  predicate Unheard(names: Names, ts: seq<Token>, w: string) {
    Word(w) in ts && names.field(w).None?
  }

  lemma UnheardInRest(names: Names, ts: seq<Token>, rest: seq<Token>, w: string)
    requires Unheard(names, rest, w) && |rest| <= |ts| && rest == ts[|ts| - |rest|..]
    ensures Unheard(names, ts, w)
  {
  }

  /** What is left over by a parse is the end of what it began with. */
  predicate IsEnd(ts: seq<Token>, p: Parsed) {
    p.Ok? ==> |p.rest| <= |ts| && p.rest == ts[|ts| - |p.rest|..]
  }

  lemma EndOfEnd(ts: seq<Token>, n: nat, p: Parsed)
    requires n <= |ts| && IsEnd(ts[n..], p)
    ensures IsEnd(ts, p)
  {
  }

  ghost predicate ErrorIsReal(names: Names, ts: seq<Token>, p: Parsed) {
    IsEnd(ts, p) && (p.Err? && p.error.UnknownField? ==> Unheard(names, ts, p.error.word))
  }

  lemma RealInRest(names: Names, ts: seq<Token>, n: nat, p: Parsed)
    requires n <= |ts| && ErrorIsReal(names, ts[n..], p)
    ensures ErrorIsReal(names, ts, p)
  {
  }

  lemma {:induction false} PrimaryErrors(names: Names, ts: seq<Token>)
    ensures ErrorIsReal(names, ts, ParsePrimary(names, ts))
    decreases |ts|, 0
  {
    if ts != [] && ts[0].LParen? {
      OrErrors(names, ts[1..]);
    }
  }

  lemma {:induction false} UnaryErrors(names: Names, ts: seq<Token>)
    ensures ErrorIsReal(names, ts, ParseUnary(names, ts))
    decreases |ts|, 1
  {
    if ts != [] && ts[0].Not? {
      UnaryErrors(names, ts[1..]);
    } else {
      PrimaryErrors(names, ts);
    }
  }

  lemma {:induction false} AndTailErrors(names: Names, left: Ast, ts: seq<Token>)
    ensures ErrorIsReal(names, ts, AndTail(names, left, ts))
    decreases |ts|, 2
  {
    if ts != [] && (ts[0].And? || StartsPrimary(ts)) {
      var from := if ts[0].And? then ts[1..] else ts;
      UnaryErrors(names, from);
      var p := ParseUnary(names, from);
      if p.Ok? {
        AndTailErrors(names, AndE(left, p.ast), p.rest);
      }
    }
  }

  lemma {:induction false} AndErrors(names: Names, ts: seq<Token>)
    ensures ErrorIsReal(names, ts, ParseAnd(names, ts))
    decreases |ts|, 3
  {
    UnaryErrors(names, ts);
    var p := ParseUnary(names, ts);
    if p.Ok? {
      AndTailErrors(names, p.ast, p.rest);
    }
  }

  lemma {:induction false} OrTailErrors(names: Names, left: Ast, ts: seq<Token>)
    ensures ErrorIsReal(names, ts, OrTail(names, left, ts))
    decreases |ts|, 4
  {
    if ts != [] && ts[0].Or? {
      AndErrors(names, ts[1..]);
      var p := ParseAnd(names, ts[1..]);
      if p.Ok? {
        OrTailErrors(names, OrE(left, p.ast), p.rest);
      }
    }
  }

  lemma {:induction false} OrErrors(names: Names, ts: seq<Token>)
    ensures ErrorIsReal(names, ts, ParseOr(names, ts))
    decreases |ts|, 5
  {
    AndErrors(names, ts);
    var p := ParseAnd(names, ts);
    if p.Ok? {
      OrTailErrors(names, p.ast, p.rest);
    }
  }

  /** A query that is refused for an unknown field has that word, and the word names no field; such a word alone is refused so. */
  lemma UnknownFieldIsReal(names: Names, ts: seq<Token>, w: string)
    ensures ParseTokens(names, ts) == Failure(UnknownField(w)) ==> Unheard(names, ts, w)
    ensures names.field(w).None? ==> ParseTokens(names, [Word(w)]) == Failure(UnknownField(w))
  {
    OrErrors(names, ts);
    hide ParseOr, ErrorIsReal;
    if ParseTokens(names, ts) == Failure(UnknownField(w)) {
      ErrorIsIn(names, ts, w);
    }
    if names.field(w).None? {
      LoneWord(names, w);
    }
  }

  lemma ErrorIsIn(names: Names, ts: seq<Token>, w: string)
    requires ErrorIsReal(names, ts, ParseOr(names, ts)) && ParseTokens(names, ts) == Failure(UnknownField(w))
    ensures Unheard(names, ts, w)
  {
    hide ParseOr;
  }

  lemma LoneWord(names: Names, w: string)
    requires names.field(w).None?
    ensures ParseOr(names, [Word(w)]) == Err(UnknownField(w))
  {
    assert ParsePrimary(names, [Word(w)]) == Err(UnknownField(w));
    assert ParseUnary(names, [Word(w)]) == Err(UnknownField(w));
    assert ParseAnd(names, [Word(w)]) == Err(UnknownField(w));
  }
}
