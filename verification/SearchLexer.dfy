/**
 * The tokenizers of the map search language. The browser and the server each
 * have one; they differ in their white space and in a lone exclamation mark.
 */
module SearchLexer {
  import opened Common
  import opened Text

  datatype Dialect = Browser | Server

  datatype Token =
    | Word(value: string) | Str(value: string)
    | Colon | Equals | NotEquals | LParen | RParen | And | Or | Not

  /**
   * Unclosed is the error for a quote that never ends. Stuck is the browser's
   * tokenizer on an exclamation mark that starts no operator: its word loop
   * consumes nothing there, so the call never returns.
   */
  datatype Lexed = Tokens(ts: seq<Token>) | Unclosed | Stuck

  predicate IsSpace(d: Dialect, c: char) {
    if d.Browser? then JsSpace(c) else GoSpace(c)
  }

  /** The characters that end a word. */
  predicate EndsWord(d: Dialect, c: char) {
    IsSpace(d, c) || c == '(' || c == ')' || c == ':' || c == '"' || c == '=' || c == '!'
  }

  /** How many characters at the front of s belong to one word. */
  function WordLen(d: Dialect, s: string): (n: nat)
    ensures n <= |s|
    ensures forall k :: 0 <= k < n ==> !EndsWord(d, s[k])
    ensures n < |s| ==> EndsWord(d, s[n])
  {
    if s == "" || EndsWord(d, s[0]) then 0 else 1 + WordLen(d, s[1..])
  }

  datatype Quoted = Open | Closed(value: string, rest: string)

  /** The value of a quoted string, from just after its opening quote. */
  function ReadQuoted(s: string): (q: Quoted)
    ensures q.Closed? ==> |q.rest| < |s|
    decreases |s|
  {
    if s == "" then Open
    else if s[0] == '\\' && |s| > 1 then QuotedCons(s[1], ReadQuoted(s[2..]))
    else if s[0] == '"' then Closed("", s[1..])
    else QuotedCons(s[0], ReadQuoted(s[1..]))
  }

  function QuotedCons(c: char, q: Quoted): Quoted {
    if q.Open? then Open else Closed([c] + q.value, q.rest)
  }

  function Classify(word: string): Token {
    var upper := UpperAscii(word);
    if upper == "AND" then And else if upper == "OR" then Or else if upper == "NOT" then Not else Word(word)
  }

  function Prepend(ts: seq<Token>, r: Lexed): Lexed {
    if r.Tokens? then Tokens(ts + r.ts) else r
  }

  function Symbol(c: char): Token
    requires c == '(' || c == ')' || c == ':' || c == '='
  {
    if c == '(' then LParen else if c == ')' then RParen else if c == ':' then Colon else Equals
  }

  /** The token sequence of a text, read off its front. */
  function Lex(d: Dialect, s: string): Lexed
    decreases |s|
  {
    if s == "" then Tokens([])
    else if IsSpace(d, s[0]) then Lex(d, s[1..])
    else if s[0] == '(' || s[0] == ')' || s[0] == ':' || s[0] == '=' then Prepend([Symbol(s[0])], Lex(d, s[1..]))
    else if s[0] == '!' && |s| > 1 && s[1] == '=' then Prepend([NotEquals], Lex(d, s[2..]))
    else if s[0] == '!' then if d.Browser? then Stuck else Prepend([Word("!")], Lex(d, s[1..]))
    else if s[0] == '"' then
      match ReadQuoted(s[1..])
      case Open => Unclosed
      case Closed(v, rest) => Prepend([Str(v)], Lex(d, rest))
    else
      var n := WordLen(d, s);
      Prepend([Classify(s[..n])], Lex(d, s[n..]))
  }

  /** The inner loop over one word. */
  method ScanWord(d: Dialect, raw: string, start: nat) returns (i: nat)
    requires start <= |raw|
    ensures i == start + WordLen(d, raw[start..])
  {
    i := start;
    while i < |raw| && !EndsWord(d, raw[i])
      invariant start <= i <= |raw|
      invariant start + WordLen(d, raw[start..]) == i + WordLen(d, raw[i..])
    {
      assert raw[i..][1..] == raw[i + 1..];
      i := i + 1;
    }
  }

  ghost function Glue(value: string, q: Quoted): Quoted {
    if q.Open? then Open else Closed(value + q.value, q.rest)
  }

  /** ReadQuoted, read off an index. */
  lemma ReadQuotedAt(raw: string, i: nat)
    requires i < |raw|
    ensures ReadQuoted(raw[i..]) ==
      if raw[i] == '\\' && i + 1 < |raw| then QuotedCons(raw[i + 1], ReadQuoted(raw[i + 2..]))
      else if raw[i] == '"' then Closed("", raw[i + 1..])
      else QuotedCons(raw[i], ReadQuoted(raw[i + 1..]))
  {
    assert raw[i..][1..] == raw[i + 1..];
    if i + 1 < |raw| {
      assert raw[i..][2..] == raw[i + 2..];
    }
  }

  /** The inner loop over one quoted string, from just after the opening quote. */
  method ScanQuoted(raw: string, start: nat) returns (value: string, i: nat, closed: bool)
    requires start <= |raw|
    ensures start <= i <= |raw|
    ensures ReadQuoted(raw[start..]) == if closed then Closed(value, raw[i..]) else Open
    ensures closed ==> start < i
  {
    hide ReadQuoted;
    value, i, closed := "", start, false;
    GlueNothing(raw, start);
    while i < |raw|
      invariant start <= i <= |raw|
      invariant ReadQuoted(raw[start..]) == Glue(value, ReadQuoted(raw[i..]))
      decreases |raw| - i
    {
      ReadQuotedAt(raw, i);
      ghost var before := value;
      var cur := raw[i];
      if cur == '\\' && i + 1 < |raw| {
        value, i := value + [raw[i + 1]], i + 2;
      } else if cur == '"' {
        closed, i := true, i + 1;
        assert value + "" == value;
        return;
      } else {
        value, i := value + [cur], i + 1;
      }
      GlueStep(before, value[|before|], ReadQuoted(raw[i..]));
    }
  }

  lemma GlueNothing(raw: string, start: nat)
    requires start <= |raw|
    ensures Glue("", ReadQuoted(raw[start..])) == ReadQuoted(raw[start..])
    ensures ReadQuoted(raw[|raw|..]) == Open
  {
  }

  lemma GlueStep(value: string, c: char, q: Quoted)
    ensures Glue(value, QuotedCons(c, q)) == Glue(value + [c], q)
  {
    if q.Closed? {
      assert value + ([c] + q.value) == (value + [c]) + q.value;
    }
  }

  /** Lex, read off an index where a token starts. */
  lemma LexAt(d: Dialect, raw: string, i: nat)
    requires i < |raw| && !IsSpace(d, raw[i])
    ensures var c := raw[i];
      Lex(d, raw[i..]) ==
      if c == '(' || c == ')' || c == ':' || c == '=' then Prepend([Symbol(c)], Lex(d, raw[i + 1..]))
      else if c == '!' && i + 1 < |raw| && raw[i + 1] == '=' then Prepend([NotEquals], Lex(d, raw[i + 2..]))
      else if c == '!' then if d.Browser? then Stuck else Prepend([Word("!")], Lex(d, raw[i + 1..]))
      else if c == '"' then
        var q := ReadQuoted(raw[i + 1..]);
        if q.Open? then Unclosed else Prepend([Str(q.value)], Lex(d, q.rest))
      else
        var j := i + WordLen(d, raw[i..]);
        Prepend([Classify(raw[i..j])], Lex(d, raw[j..]))
  {
    var s := raw[i..];
    assert s[0] == raw[i] && s[1..] == raw[i + 1..];
    if i + 1 < |raw| {
      assert s[1] == raw[i + 1] && s[2..] == raw[i + 2..];
    }
    var n := WordLen(d, s);
    assert s[..n] == raw[i..i + n] && s[n..] == raw[i + n..];
  }

  /** A word is empty exactly when a character that ends words stands first. */
  lemma EmptyWord(d: Dialect, s: string)
    requires s != ""
    ensures WordLen(d, s) == 0 <==> EndsWord(d, s[0])
  {
  }

  /** One token at a character that is no white space; stop carries an early end of the whole call. */
  method TokenAt(d: Dialect, raw: string, i: nat) returns (t: Token, j: nat, stop: Option<Lexed>)
    requires i < |raw| && !IsSpace(d, raw[i])
    ensures i < j <= |raw|
    ensures stop.Some? ==> !stop.value.Tokens?
    ensures Lex(d, raw[i..]) == if stop.Some? then stop.value else Prepend([t], Lex(d, raw[j..]))
  {
    hide Lex, ReadQuoted, WordLen;
    var c := raw[i];
    LexAt(d, raw, i);
    if c == '(' || c == ')' || c == ':' || c == '=' {
      return Symbol(c), i + 1, None;
    }
    if c == '!' && i + 1 < |raw| && raw[i + 1] == '=' {
      return NotEquals, i + 2, None;
    }
    if c == '!' && d.Server? {
      return Word("!"), i + 1, None;
    }
    if c == '"' {
      var value, k, closed := ScanQuoted(raw, i + 1);
      if !closed {
        return Str(value), i + 1, Some(Unclosed);
      }
      return Str(value), k, None;
    }
    j := ScanWord(d, raw, i);
    EmptyWord(d, raw[i..]);
    if j == i {
      // The word is empty, so the index stays and the same happens again, for ever.
      return Word(""), i + 1, Some(Stuck);
    }
    t, stop := Classify(raw[i..j]), None;
  }

  /** The tokenizer loop: one index moved over the text, tokens pushed as they are found. */
  method Tokenize(d: Dialect, raw: string) returns (r: Lexed)
    ensures r == Lex(d, raw)
  {
    var tokens: seq<Token> := [];
    var i := 0;
    assert raw[0..] == raw;
    while i < |raw|
      invariant i <= |raw|
      invariant Lex(d, raw) == Prepend(tokens, Lex(d, raw[i..]))
      decreases |raw| - i
    {
      if IsSpace(d, raw[i]) {
        assert raw[i..][1..] == raw[i + 1..];
        i := i + 1;
      } else {
        var t, j, stop := TokenAt(d, raw, i);
        if stop.Some? {
          return stop.value;
        }
        PrependTwice(tokens, [t], Lex(d, raw[j..]));
        tokens, i := tokens + [t], j;
      }
    }
    r := Tokens(tokens);
  }

  lemma PrependTwice(a: seq<Token>, b: seq<Token>, r: Lexed)
    ensures Prepend(a, Prepend(b, r)) == Prepend(a + b, r)
  {
    if r.Tokens? {
      assert a + (b + r.ts) == (a + b) + r.ts;
    }
  }

  // ---- when the browser hangs ----

  /** Where a position lies: outside quotes, inside, or inside just after a backslash. */
  datatype Spot = Outside | Inside | Escaped

  function NextSpot(spot: Spot, c: char): Spot {
    if spot.Escaped? then Inside
    else if spot.Outside? then if c == '"' then Inside else Outside
    else if c == '"' then Outside else if c == '\\' then Escaped else Inside
  }

  function SpotAt(s: string, i: nat): Spot
    requires i <= |s|
  {
    if i == 0 then Outside else NextSpot(SpotAt(s, i - 1), s[i - 1])
  }

  /** An exclamation mark outside quotes that no equals sign follows. */
  predicate BangAt(s: string, i: nat) {
    i < |s| && s[i] == '!' && SpotAt(s, i).Outside? && (i + 1 < |s| ==> s[i + 1] != '=')
  }

  ghost predicate BareBang(s: string) {
    exists i :: BangAt(s, i)
  }

  /** From a position outside quotes on, the text may be read alone. */
  lemma {:induction false} SpotShift(s: string, i: nat, j: nat)
    requires i <= j <= |s| && SpotAt(s, i).Outside?
    ensures SpotAt(s, j) == SpotAt(s[i..], j - i)
    decreases j
  {
    if i < j {
      SpotShift(s, i, j - 1);
      assert s[i..][j - 1 - i] == s[j - 1];
    }
  }

  lemma BangShift(s: string, i: nat, j: nat)
    requires i <= j && i <= |s| && SpotAt(s, i).Outside?
    ensures BangAt(s, j) <==> BangAt(s[i..], j - i)
  {
    hide SpotAt;
    if j < |s| {
      SpotShift(s, i, j);
      assert s[i..][j - i] == s[j];
      assert j + 1 < |s| ==> s[i..][j + 1 - i] == s[j + 1];
    }
  }

  /** Reading on from position i loses no bare exclamation mark when none comes before i. */
  lemma BangsFrom(s: string, i: nat)
    requires i <= |s| && SpotAt(s, i).Outside? && forall j :: 0 <= j < i ==> !BangAt(s, j)
    ensures BareBang(s) <==> BareBang(s[i..])
  {
    hide BangAt, SpotAt;
    if BareBang(s) {
      var j :| BangAt(s, j);
      BangShift(s, i, j);
    }
    if BareBang(s[i..]) {
      var j :| BangAt(s[i..], j);
      BangShift(s, i, i + j);
    }
  }

  /** From position i inside quotes on, the string read as q hides what is in it, and ends outside quotes if it ends. */
  ghost predicate Hides(s: string, i: nat, q: Quoted) {
    var e := if q.Closed? then |s| - |q.rest| else |s|;
    i <= e <= |s| && (forall j :: i <= j < e ==> !SpotAt(s, j).Outside?) &&
    (q.Closed? ==> SpotAt(s, e).Outside? && q.rest == s[e..])
  }

  lemma HidesMore(s: string, i: nat, n: nat, c: char, q: Quoted)
    requires i + n <= |s| && Hides(s, i + n, q)
    requires forall j :: i <= j < i + n ==> !SpotAt(s, j).Outside?
    ensures Hides(s, i, QuotedCons(c, q))
  {
    hide SpotAt;
  }

  lemma {:induction false} QuotedSpots(s: string, i: nat)
    requires i <= |s| && SpotAt(s, i).Inside?
    ensures Hides(s, i, ReadQuoted(s[i..]))
    decreases |s| - i
  {
    hide Hides, SpotAt, ReadQuoted;
    if i == |s| {
      NoQuoteEnd(s, i);
    } else {
      ReadQuotedAt(s, i);
      InsideStep(s, i);
      if s[i] == '\\' && i + 1 < |s| {
        QuotedSpots(s, i + 2);
        HidesMore(s, i, 2, s[i + 1], ReadQuoted(s[i + 2..]));
      } else if s[i] == '"' {
        ClosingQuote(s, i);
      } else {
        if i + 1 == |s| {
          NoQuoteEnd(s, i + 1);
        } else {
          QuotedSpots(s, i + 1);
        }
        HidesMore(s, i, 1, s[i], ReadQuoted(s[i + 1..]));
      }
    }
  }

  lemma InsideStep(s: string, i: nat)
    requires i < |s| && SpotAt(s, i).Inside?
    ensures s[i] == '\\' && i + 1 < |s| ==> !SpotAt(s, i + 1).Outside? && SpotAt(s, i + 2).Inside?
    ensures s[i] != '\\' && s[i] != '"' ==> SpotAt(s, i + 1).Inside?
    ensures s[i] == '"' ==> SpotAt(s, i + 1).Outside?
  {
  }

  lemma ClosingQuote(s: string, i: nat)
    requires i < |s| && SpotAt(s, i).Inside? && SpotAt(s, i + 1).Outside?
    ensures Hides(s, i, Closed("", s[i + 1..]))
  {
    hide SpotAt;
  }

  lemma NoQuoteEnd(s: string, i: nat)
    requires i == |s|
    ensures Hides(s, i, ReadQuoted(s[i..]))
  {
    assert s[i..] == "";
  }

  lemma {:induction false} WordSpots(s: string, n: nat)
    requires n <= |s| && forall k :: 0 <= k < n ==> !EndsWord(Browser, s[k])
    ensures SpotAt(s, n).Outside? && forall j :: 0 <= j < n ==> !BangAt(s, j)
  {
    if n > 0 {
      WordSpots(s, n - 1);
    }
  }

  lemma FirstSpot(s: string)
    requires s != "" && s[0] != '"'
    ensures SpotAt(s, 1).Outside?
    ensures BangAt(s, 0) <==> s[0] == '!' && (|s| > 1 ==> s[1] != '=')
    ensures |s| > 1 && s[1] != '"' ==> SpotAt(s, 2).Outside?
    ensures s[0] == '!' && |s| > 1 && s[1] == '=' ==> !BangAt(s, 1)
  {
    assert SpotAt(s, 0).Outside?;
  }

  lemma OpeningQuote(s: string)
    requires s != "" && s[0] == '"'
    ensures SpotAt(s, 1).Inside? && !BangAt(s, 0)
  {
    assert SpotAt(s, 0).Outside?;
  }

  /** What follows a quoted string at the front; all of the text is inside when it never ends. */
  lemma QuotedBangs(s: string)
    requires s != "" && s[0] == '"'
    ensures var q := ReadQuoted(s[1..]); if q.Closed? then BareBang(s) <==> BareBang(q.rest) else !BareBang(s)
  {
    hide SpotAt;
    OpeningQuote(s);
    QuotedSpots(s, 1);
    var q := ReadQuoted(s[1..]);
    if q.Closed? {
      BangsFrom(s, |s| - |q.rest|);
    }
  }

  /** The browser's tokenizer hangs exactly on the texts with a bare exclamation mark outside quotes. */
  lemma {:induction false} StuckExactly(s: string)
    ensures Lex(Browser, s).Stuck? <==> BareBang(s)
    decreases |s|
  {
    hide BangAt, SpotAt, BareBang, ReadQuoted;
    if s == "" {
      NoBang();
    } else if s[0] == '"' {
      QuotedBangs(s);
      var q := ReadQuoted(s[1..]);
      if q.Closed? {
        StuckExactly(q.rest);
      }
    } else if !EndsWord(Browser, s[0]) {
      var n := WordLen(Browser, s);
      WordSpots(s, n);
      BangsFrom(s, n);
      StuckExactly(s[n..]);
    } else {
      FirstSpot(s);
      if s[0] != '!' {
        BangsFrom(s, 1);
        StuckExactly(s[1..]);
      } else if |s| > 1 && s[1] == '=' {
        BangsFrom(s, 2);
        StuckExactly(s[2..]);
      } else {
        BangHere(s);
      }
    }
  }

  lemma NoBang()
    ensures !BareBang("")
  {
  }

  lemma BangHere(s: string)
    requires BangAt(s, 0)
    ensures BareBang(s)
  {
  }

  /** The smallest text on which the browser's tokenizer does not come back. */
  lemma LoneBangHangs()
    ensures BareBang("!") && Lex(Browser, "!").Stuck? && Lex(Server, "!").Tokens?
  {
    FirstSpot("!");
    BangHere("!");
    assert "!"[1..] == "";
  }

  /** The two space classes differ in two characters only. */
  predicate SameSpaces(s: string) {
    forall k :: 0 <= k < |s| ==> s[k] != '\U{85}' && s[k] != '\U{feff}'
  }

  /**
   * Browser and server read the same tokens from every text that has neither of
   * the two characters their space classes disagree on and no bare exclamation mark.
   */
  lemma DialectsAgree(s: string)
    requires SameSpaces(s) && !BareBang(s)
    ensures Lex(Server, s) == Lex(Browser, s)
  {
    hide Lex, BareBang;
    StuckExactly(s);
    SameUnlessStuck(s);
  }

  lemma {:induction false} SameUnlessStuck(s: string)
    requires SameSpaces(s)
    ensures Lex(Browser, s).Stuck? || Lex(Server, s) == Lex(Browser, s)
    decreases |s|
  {
    if s != "" {
      if s[0] == '"' {
        var q := ReadQuoted(s[1..]);
        if q.Closed? {
          QuotedSameSpaces(s[1..]);
          SameUnlessStuck(q.rest);
        }
      } else {
        if !EndsWord(Browser, s[0]) {
          SameWordLen(s);
          SameUnlessStuck(s[WordLen(Browser, s)..]);
        }
        if s[0] == '!' && |s| > 1 {
          SameUnlessStuck(s[2..]);
        }
        SameUnlessStuck(s[1..]);
      }
    }
  }

  lemma {:induction false} QuotedSameSpaces(s: string)
    requires SameSpaces(s) && ReadQuoted(s).Closed?
    ensures SameSpaces(ReadQuoted(s).rest)
    decreases |s|
  {
    if s[0] == '\\' && |s| > 1 {
      QuotedSameSpaces(s[2..]);
    } else if s[0] != '"' {
      QuotedSameSpaces(s[1..]);
    }
  }

  lemma {:induction false} SameWordLen(s: string)
    requires SameSpaces(s)
    ensures WordLen(Browser, s) == WordLen(Server, s)
  {
    if s != "" {
      SameWordLen(s[1..]);
    }
  }

  /** The server's tokenizer always comes back: every text is tokens or an open quote. */
  lemma {:induction false} ServerNeverStuck(s: string)
    ensures !Lex(Server, s).Stuck?
    decreases |s|
  {
    if s != "" {
      if IsSpace(Server, s[0]) || s[0] == '(' || s[0] == ')' || s[0] == ':' || s[0] == '=' {
        ServerNeverStuck(s[1..]);
      } else if s[0] == '!' {
        ServerNeverStuck(s[1..]);
        if |s| > 1 {
          ServerNeverStuck(s[2..]);
        }
      } else if s[0] == '"' {
        var q := ReadQuoted(s[1..]);
        if q.Closed? {
          ServerNeverStuck(q.rest);
        }
      } else {
        ServerNeverStuck(s[WordLen(Server, s)..]);
      }
    }
  }
}
