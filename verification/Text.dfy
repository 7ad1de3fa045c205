/** White space and trimming, as JavaScript and Go understand them. */
module Text {

  /** The white space both languages agree on. */
  predicate CommonSpace(c: char) {
    ('\t' <= c <= '\r') || c == ' ' || c == '\U{a0}' || c == '\U{1680}' ||
    ('\U{2000}' <= c <= '\U{200a}') || c == '\U{2028}' || c == '\U{2029}' ||
    c == '\U{202f}' || c == '\U{205f}' || c == '\U{3000}'
  }

  /** JavaScript's \s and trim. */
  predicate JsSpace(c: char) {
    CommonSpace(c) || c == '\U{feff}'
  }

  /** Go's unicode.IsSpace and strings.TrimSpace. */
  predicate GoSpace(c: char) {
    CommonSpace(c) || c == '\U{85}'
  }

  function TrimLeft(space: char -> bool, s: string): (r: string)
    ensures r == "" || !space(r[0])
    ensures |r| <= |s| && r == s[|s| - |r|..]
  {
    if s != "" && space(s[0]) then TrimLeft(space, s[1..]) else s
  }

  function TrimRight(space: char -> bool, s: string): (r: string)
    ensures r == "" || !space(r[|r| - 1])
    ensures |r| <= |s| && r == s[..|r|]
  {
    if s != "" && space(s[|s| - 1]) then TrimRight(space, s[..|s| - 1]) else s
  }

  function Trim(space: char -> bool, s: string): (r: string)
    ensures Trimmed(space, r)
    ensures |r| <= |s|
    ensures Trimmed(space, s) ==> r == s
  {
    TrimRight(space, TrimLeft(space, s))
  }

  /** A part of the rest of a text. */
  lemma PartOfPart(s: string, i: nat, a: nat, b: nat)
    requires i <= a <= b <= |s|
    ensures s[a..b] == s[i..][a - i..b - i]
  {
  }

  lemma TrimIsPart(x: string) returns (a: nat)
    ensures a + |Trim(GoSpace, x)| <= |x| && x[a..a + |Trim(GoSpace, x)|] == Trim(GoSpace, x)
  {
    var left := TrimLeft(GoSpace, x);
    a := |x| - |left|;
    var n := |Trim(GoSpace, x)|;
    assert left == x[a..] && Trim(GoSpace, x) == left[..n];
    hide Trim, TrimLeft, GoSpace;
    PartOfPart(x, a, a, a + n);
  }

  /** Neither end is white space. */
  predicate Trimmed(space: char -> bool, s: string) {
    s == "" || (!space(s[0]) && !space(s[|s| - 1]))
  }

  /** Something other than white space is in it. */
  predicate NotBlank(s: string) {
    exists i :: 0 <= i < |s| && !GoSpace(s[i])
  }

  /** Exactly blank texts are trimmed to nothing. */
  lemma TrimBlank(s: string)
    ensures Trim(GoSpace, s) == "" <==> !NotBlank(s)
  {
    hide GoSpace;
    var a := TrimIsPart(s);
    var r := Trim(GoSpace, s);
    if r != "" {
      assert s[a] == r[0];
    } else if NotBlank(s) {
      var i :| 0 <= i < |s| && !GoSpace(s[i]);
      TrimLeftKeeps(s, i);
      TrimRightKeeps(TrimLeft(GoSpace, s));
      assert false;
    }
  }

  lemma {:induction false} TrimLeftKeeps(s: string, i: nat)
    requires i < |s| && !GoSpace(s[i])
    ensures TrimLeft(GoSpace, s) != ""
  {
    hide GoSpace;
    if GoSpace(s[0]) {
      assert s[1..][i - 1] == s[i];
      TrimLeftKeeps(s[1..], i - 1);
    }
  }

  /** Trimming on the right stops at the first character at the latest. */
  lemma {:induction false} TrimRightKeeps(s: string)
    requires s != "" && !GoSpace(s[0])
    ensures TrimRight(GoSpace, s) != ""
  {
    hide GoSpace;
    if |s| > 1 {
      TrimRightKeeps(s[..|s| - 1]);
    }
  }

  predicate IsDigit(c: char) {
    '0' <= c <= '9'
  }

  function LowerAsciiChar(c: char): char {
    if 'A' <= c <= 'Z' then (c as int + 32) as char else c
  }

  function UpperAsciiChar(c: char): char {
    if 'a' <= c <= 'z' then (c as int - 32) as char else c
  }

  function LowerAscii(s: string): (r: string)
    ensures |r| == |s|
  {
    if s == "" then "" else [LowerAsciiChar(s[0])] + LowerAscii(s[1..])
  }

  function UpperAscii(s: string): (r: string)
    ensures |r| == |s|
  {
    if s == "" then "" else [UpperAsciiChar(s[0])] + UpperAscii(s[1..])
  }

  /** needle occurs somewhere in hay. */
  ghost predicate Includes(hay: string, needle: string) {
    exists before, after :: hay == before + needle + after
  }
}
