/** What single tokens are read from: keywords in any case, quoted strings unit by unit, and the lone exclamation mark. */
module SearchTokens {
  import opened Common
  import opened Text
  import opened SearchLexer
  import opened SearchBuilder

  // ---- keywords ----

  /** The two letters differ at most in case. */
  predicate SameLetter(c: char, lower: char, upper: char) {
    c == lower || c == upper
  }

  predicate SpellsAnd(w: string) {
    |w| == 3 && SameLetter(w[0], 'a', 'A') && SameLetter(w[1], 'n', 'N') && SameLetter(w[2], 'd', 'D')
  }

  predicate SpellsOr(w: string) {
    |w| == 2 && SameLetter(w[0], 'o', 'O') && SameLetter(w[1], 'r', 'R')
  }

  predicate SpellsNot(w: string) {
    |w| == 3 && SameLetter(w[0], 'n', 'N') && SameLetter(w[1], 'o', 'O') && SameLetter(w[2], 't', 'T')
  }

  lemma {:induction false} UpperAt(w: string, k: nat)
    requires k < |w|
    ensures UpperAscii(w)[k] == UpperAsciiChar(w[k])
  {
    if k > 0 {
      UpperAt(w[1..], k - 1);
    }
  }

  lemma UpperIs(w: string, upper: string)
    ensures UpperAscii(w) == upper <==> |w| == |upper| && forall k :: 0 <= k < |w| ==> UpperAsciiChar(w[k]) == upper[k]
  {
    forall k | 0 <= k < |w|
      ensures UpperAscii(w)[k] == UpperAsciiChar(w[k])
    {
      UpperAt(w, k);
    }
  }

  /** The three keywords are recognised in any case; every other word stays as it is written. */
  lemma KeywordsInAnyCase(w: string)
    ensures Classify(w) ==
      if SpellsAnd(w) then And else if SpellsOr(w) then Or else if SpellsNot(w) then Not else Word(w)
  {
    UpperIs(w, "AND");
    UpperIs(w, "OR");
    UpperIs(w, "NOT");
    hide UpperAscii;
  }

  // ---- quoted strings ----

  /** The text of one character: itself, or any character after a backslash. */
  predicate Spells(unit: string, c: char) {
    unit == ['\\', c] || (unit == [c] && c != '\\' && c != '"')
  }

  predicate SpellsAll(units: seq<string>, v: string) {
    |units| == |v| && forall k :: 0 <= k < |v| ==> Spells(units[k], v[k])
  }

  function Concat(units: seq<string>): string {
    if units == [] then "" else units[0] + Concat(units[1..])
  }

  lemma UnitStep(unit: string, c: char, s: string)
    requires Spells(unit, c)
    ensures ReadQuoted(unit + s) == QuotedCons(c, ReadQuoted(s))
  {
    var t := unit + s;
    if unit == ['\\', c] {
      assert t[0] == '\\' && t[1] == c && t[2..] == s;
    } else {
      assert t[0] == c && t[1..] == s;
    }
  }

  lemma {:induction false} UnitsRead(units: seq<string>, v: string, rest: string)
    requires SpellsAll(units, v)
    ensures ReadQuoted(Concat(units) + "\"" + rest) == Closed(v, rest)
    decreases |v|
  {
    if v == "" {
      var t := Concat(units) + "\"" + rest;
      assert t == "\"" + rest && t[1..] == rest;
    } else {
      var s := Concat(units[1..]) + "\"" + rest;
      assert SpellsAll(units[1..], v[1..]) && Spells(units[0], v[0]);
      UnitsRead(units[1..], v[1..], rest);
      assert Concat(units) + "\"" + rest == units[0] + s;
      UnitStep(units[0], v[0], s);
      assert v == [v[0]] + v[1..];
    }
  }

  /** The units a closed string was read from. */
  lemma {:induction false} UnitsOf(s: string) returns (units: seq<string>)
    requires ReadQuoted(s).Closed?
    ensures var q := ReadQuoted(s); SpellsAll(units, q.value) && s == Concat(units) + "\"" + q.rest
    decreases |s|
  {
    hide ReadQuoted, Spells, SpellsAll, Concat;
    QuotedStep(s);
    if s[0] == '\\' && |s| > 1 {
      var more := UnitsOf(s[2..]);
      units := [s[..2]] + more;
      UnitInFront(s, 2, s[1], more);
    } else if s[0] == '"' {
      units := [];
      NoUnits(s);
    } else {
      var more := UnitsOf(s[1..]);
      units := [s[..1]] + more;
      NoTrailingBackslash(s);
      UnitInFront(s, 1, s[0], more);
    }
  }

  lemma QuotedStep(s: string)
    requires ReadQuoted(s).Closed?
    ensures s != ""
    ensures if s[0] == '\\' && |s| > 1 then ReadQuoted(s[2..]).Closed? && ReadQuoted(s) == QuotedCons(s[1], ReadQuoted(s[2..]))
      else if s[0] == '"' then ReadQuoted(s) == Closed("", s[1..])
      else ReadQuoted(s[1..]).Closed? && ReadQuoted(s) == QuotedCons(s[0], ReadQuoted(s[1..]))
  {
  }

  lemma NoUnits(s: string)
    requires s != "" && s[0] == '"'
    ensures SpellsAll([], "") && s == Concat([]) + "\"" + s[1..]
  {
    assert s == "\"" + s[1..];
  }

  lemma UnitInFront(s: string, n: nat, c: char, more: seq<string>)
    requires n <= |s| && (n == 1 || n == 2) && s[n - 1] == c && (n == 2 ==> s[0] == '\\') && (n == 1 ==> c != '\\' && c != '"')
    requires var q := ReadQuoted(s[n..]); q.Closed? && SpellsAll(more, q.value) && s[n..] == Concat(more) + "\"" + q.rest
    ensures var q, units := QuotedCons(c, ReadQuoted(s[n..])), [s[..n]] + more;
      SpellsAll(units, q.value) && s == Concat(units) + "\"" + q.rest
  {
    hide ReadQuoted;
    var q := ReadQuoted(s[n..]);
    var units := [s[..n]] + more;
    assert units[1..] == more && s == s[..n] + s[n..];
    assert n == 1 ==> s[..n] == [c];
    assert n == 2 ==> s[..n] == ['\\', c];
    ConsSpells(s[..n], c, more, q.value);
    assert s[..n] + (Concat(more) + "\"" + q.rest) == (s[..n] + Concat(more)) + "\"" + q.rest;
  }

  lemma NoTrailingBackslash(s: string)
    requires ReadQuoted(s).Closed? && !(s[0] == '\\' && |s| > 1)
    ensures s[0] != '\\'
  {
    assert |s| == 1 ==> s[1..] == "";
  }

  lemma ConsSpells(unit: string, c: char, units: seq<string>, v: string)
    requires Spells(unit, c) && SpellsAll(units, v)
    ensures SpellsAll([unit] + units, [c] + v)
  {
  }

  /**
   * A quoted string is read as v with this rest exactly when the text spells v, each
   * character as itself or after a backslash, then a quotation mark, then the rest. A
   * backslash takes the next character as it is, whatever it is.
   */
  lemma QuotedExactly(s: string, v: string, rest: string)
    ensures ReadQuoted(s) == Closed(v, rest) <==> exists units :: SpellsAll(units, v) && s == Concat(units) + "\"" + rest
  {
    if ReadQuoted(s) == Closed(v, rest) {
      var units := UnitsOf(s);
    }
    if units :| SpellsAll(units, v) && s == Concat(units) + "\"" + rest {
      UnitsRead(units, v, rest);
    }
  }

  // ---- the exclamation mark ----

  /** The server reads an exclamation mark that no equals sign follows as a word of its own. */
  lemma ServerBang(rest: string)
    requires rest == "" || rest[0] != '='
    ensures Lex(Server, "!" + rest) == Prepend([Word("!")], Lex(Server, rest))
  {
    var s := "!" + rest;
    assert s[0] == '!' && s[1..] == rest;
    assert |s| > 1 ==> s[1] == rest[0];
  }

  // ---- when the builder quotes ----

  lemma {:induction false} ReplaceGrows(s: string, c: char, with: string)
    requires |with| >= 1
    ensures |Replace(s, c, with)| >= |s|
  {
    if s != "" {
      ReplaceGrows(s[1..], c, with);
    }
  }

  /** A value is printed as it is exactly when it has no white space, parenthesis or quotation mark of either kind. */
  lemma BareExactly(raw: string)
    ensures QuoteValue(raw) == Trim(JsSpace, raw) <==>
      forall k :: 0 <= k < |Trim(JsSpace, raw)| ==> !JsSpace(Trim(JsSpace, raw)[k]) && Trim(JsSpace, raw)[k] !in "()\"'"
  {
    var v := Trim(JsSpace, raw);
    hide Trim, JsSpace;
    forall c: char
      ensures c in "()\"'" <==> c == '(' || c == ')' || c == '"' || c == '\''
    {
    }
    if NeedsQuotes(v) {
      ReplaceGrows(v, '\\', "\\\\");
      ReplaceGrows(Replace(v, '\\', "\\\\"), '"', "\\\"");
    }
    hide Replace;
  }
}
