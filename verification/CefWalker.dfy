/** The scanner of key=value pairs in CEF extensions. */
module CefWalker {
  import opened Text

  type Pair = (string, string)

  predicate KeyChar(c: char) {
    'A' <= c <= 'Z' || 'a' <= c <= 'z' || '0' <= c <= '9' || c == '_' || c == '.' || c == '-'
  }

  predicate Blank(c: char) {
    c == ' ' || c == '\t'
  }

  /** White space as the former pattern (?:^|\s)([A-Za-z0-9_.-]+)= understood it. */
  predicate PatternSpace(c: char) {
    Blank(c) || LineBreak(c)
  }

  predicate LineBreak(c: char) {
    c == '\n' || c == '\r' || c == '\U{c}'
  }

  // ---- what the pattern matches ----

  /** The end of the key characters from i on. */
  function KeyEnd(s: string, i: nat): (e: nat)
    requires i <= |s|
    ensures i <= e <= |s| && (e < |s| ==> !KeyChar(s[e]))
    ensures forall k :: i <= k < e ==> KeyChar(s[k])
    decreases |s| - i
  {
    if i < |s| && KeyChar(s[i]) then KeyEnd(s, i + 1) else i
  }

  /** A key and an equals sign begin at i. */
  predicate StartsPair(s: string, i: nat)
    requires i <= |s|
  {
    var e := KeyEnd(s, i);
    i < e < |s| && s[e] == '='
  }

  /** The pattern matches with its key at i; space says what may come before it. */
  predicate IsStart(space: char -> bool, s: string, i: nat) {
    i < |s| && (i == 0 || space(s[i - 1])) && StartsPair(s, i)
  }

  /** The first match at or after i, or the end. */
  function NextStart(space: char -> bool, s: string, i: nat): (q: nat)
    requires i <= |s|
    ensures i <= q <= |s| && (q < |s| ==> IsStart(space, s, q))
    ensures forall p :: i <= p < q ==> !IsStart(space, s, p)
    decreases |s| - i
  {
    if i == |s| || IsStart(space, s, i) then i else NextStart(space, s, i + 1)
  }

  function Between(s: string, a: nat, b: nat): string {
    if a <= b <= |s| then s[a..b] else ""
  }

  /** The white space before the next match, or the end. */
  function ValueEnd(space: char -> bool, s: string, i: nat): nat
    requires i < |s|
  {
    var q := NextStart(space, s, i + 1);
    if q == |s| then q else q - 1
  }

  /** A value reaches from its equals sign to the white space before the next key. */
  function ValueAt(space: char -> bool, s: string, i: nat): string
    requires i < |s|
  {
    Between(s, KeyEnd(s, i) + 1, ValueEnd(space, s, i))
  }

  /** The pairs the pattern finds at or after i, values trimmed. */
  function Matches(space: char -> bool, s: string, i: nat): seq<Pair>
    requires i <= |s|
    decreases |s| - i
  {
    if i == |s| then []
    else if IsStart(space, s, i) then
      [(s[i..KeyEnd(s, i)], Trim(GoSpace, ValueAt(space, s, i)))] + Matches(space, s, i + 1)
    else Matches(space, s, i + 1)
  }

  /** A key of key characters, and a value without white space at its ends. */
  predicate CleanPair(p: Pair) {
    GoodKey(p.0) && Trimmed(GoSpace, p.1)
  }

  lemma KeyIsGood(space: char -> bool, s: string, i: nat)
    requires i < |s| && IsStart(space, s, i)
    ensures GoodKey(s[i..KeyEnd(s, i)])
  {
    var key := s[i..KeyEnd(s, i)];
    assert forall k :: 0 <= k < |key| ==> key[k] == s[i + k];
  }

  /** Every pair that is found is clean. */
  lemma {:induction false} PairsAreClean(space: char -> bool, s: string, i: nat)
    requires i <= |s|
    ensures forall p :: p in Matches(space, s, i) ==> CleanPair(p)
    decreases |s| - i
  {
    hide CleanPair, IsStart, ValueAt, Trim;
    if i < |s| {
      PairsAreClean(space, s, i + 1);
      if IsStart(space, s, i) {
        KeyIsGood(space, s, i);
        TrimmedIsClean(s[i..KeyEnd(s, i)], ValueAt(space, s, i));
      }
    }
  }

  lemma TrimmedIsClean(key: string, v: string)
    requires GoodKey(key)
    ensures CleanPair((key, Trim(GoSpace, v)))
  {
    hide Trim;
  }

  lemma {:induction false} NoStarts(space: char -> bool, s: string, i: nat, j: nat)
    requires i <= j <= |s| && forall p :: i <= p < j ==> !IsStart(space, s, p)
    ensures Matches(space, s, i) == Matches(space, s, j)
    decreases j - i
  {
    if i < j {
      NoStarts(space, s, i + 1, j);
    }
  }

  lemma NextStartIs(space: char -> bool, s: string, i: nat, q: nat)
    requires i <= q <= |s| && (q == |s| || IsStart(space, s, q)) && forall p :: i <= p < q ==> !IsStart(space, s, p)
    ensures NextStart(space, s, i) == q
  {
    hide IsStart;
    var r := NextStart(space, s, i);
  }

  // ---- trimming ----

  lemma {:induction false} TrimLeftLast(x: string, b: char)
    requires GoSpace(b)
    ensures TrimLeft(GoSpace, x + [b]) == if TrimLeft(GoSpace, x) == "" then "" else TrimLeft(GoSpace, x) + [b]
  {
    if x == "" {
      assert x + [b] == [b] && [b][1..] == "";
    } else {
      assert (x + [b])[1..] == x[1..] + [b] && (x + [b])[0] == x[0];
      if GoSpace(x[0]) {
        TrimLeftLast(x[1..], b);
      }
    }
  }

  lemma TrimLast(x: string, b: char)
    requires GoSpace(b)
    ensures Trim(GoSpace, x + [b]) == Trim(GoSpace, x)
  {
    TrimLeftLast(x, b);
    var y := TrimLeft(GoSpace, x);
    assert (y + [b])[..|y + [b]| - 1] == y;
  }

  /** White space at the end does not matter. */
  lemma {:induction false} TrimTail(x: string, tail: string)
    requires forall k :: 0 <= k < |tail| ==> GoSpace(tail[k])
    ensures Trim(GoSpace, x + tail) == Trim(GoSpace, x)
  {
    hide Trim, GoSpace;
    if tail == "" {
      assert x + tail == x;
    } else {
      var init, b := tail[..|tail| - 1], tail[|tail| - 1];
      TrimTail(x, init);
      assert x + tail == (x + init) + [b];
      TrimLast(x + init, b);
    }
  }

  // ---- the scanner ----

  /** The end of the blanks from i on. */
  function BlankEnd(s: string, i: nat): (e: nat)
    requires i <= |s|
    ensures i <= e <= |s| && (e < |s| ==> !Blank(s[e]))
    ensures forall k :: i <= k < e ==> Blank(s[k])
    decreases |s| - i
  {
    if i < |s| && Blank(s[i]) then BlankEnd(s, i + 1) else i
  }

  method SkipBlanks(s: string, i: nat) returns (j: nat)
    requires i <= |s|
    ensures j == BlankEnd(s, i)
  {
    j := i;
    while j < |s| && Blank(s[j])
      invariant i <= j <= |s| && BlankEnd(s, j) == BlankEnd(s, i)
    {
      j := j + 1;
    }
  }

  method SkipKey(s: string, i: nat) returns (j: nat)
    requires i <= |s|
    ensures j == KeyEnd(s, i)
  {
    j := i;
    while j < |s| && KeyChar(s[j])
      invariant i <= j <= |s| && KeyEnd(s, j) == KeyEnd(s, i)
    {
      j := j + 1;
    }
  }

  method SkipWord(s: string, i: nat) returns (j: nat)
    requires i <= |s|
    ensures i <= j <= |s| && (j < |s| ==> Blank(s[j])) && forall k :: i <= k < j ==> !Blank(s[k])
  {
    j := i;
    while j < |s| && !Blank(s[j])
      invariant i <= j <= |s| && forall k :: i <= k < j ==> !Blank(s[k])
    {
      j := j + 1;
    }
  }

  /** A blank after which, blanks aside, a pair starts. */
  predicate Boundary(s: string, j: nat)
    requires j < |s|
  {
    Blank(s[j]) && StartsPair(s, BlankEnd(s, j + 1))
  }

  /** Looks ahead from each blank for the start of the next pair. */
  method FindValueEnd(s: string, from: nat) returns (j: nat)
    requires from <= |s|
    ensures from <= j <= |s| && (j < |s| ==> Boundary(s, j)) && forall k :: from <= k < j ==> !Boundary(s, k)
  {
    j := from;
    while j < |s|
      invariant from <= j <= |s| && forall k :: from <= k < j ==> !Boundary(s, k)
    {
      if Blank(s[j]) {
        var k := SkipBlanks(s, j + 1);
        var e := SkipKey(s, k);
        if e > k && e < |s| && s[e] == '=' {
          return;
        }
      }
      j := j + 1;
    }
  }

  lemma StartIsBoundary(s: string, p: nat)
    requires p > 0 && IsStart(Blank, s, p)
    ensures Boundary(s, p - 1) && !Blank(s[p])
  {
    assert KeyChar(s[p]);
  }

  lemma StartAfterKey(s: string, i: nat, p: nat)
    requires i < p && IsStart(Blank, s, i) && IsStart(Blank, s, p)
    ensures KeyEnd(s, i) < p - 1
  {
  }

  /** Looking ahead from blanks finds the next match of the pattern, but for the blanks before it. */
  lemma LookAheadIsNext(s: string, i: nat, j: nat)
    requires IsStart(Blank, s, i) && KeyEnd(s, i) < j <= |s|
    requires (j < |s| ==> Boundary(s, j)) && forall k :: KeyEnd(s, i) < k < j ==> !Boundary(s, k)
    ensures NextStart(Blank, s, i + 1) == if j == |s| then |s| else BlankEnd(s, j + 1)
  {
    var q := if j == |s| then |s| else BlankEnd(s, j + 1);
    assert q < |s| ==> Blank(s[q - 1]);
    forall p | i + 1 <= p < q
      ensures !IsStart(Blank, s, p)
    {
      if IsStart(Blank, s, p) {
        StartIsBoundary(s, p);
        StartAfterKey(s, i, p);
        assert false;
      }
    }
    NextStartIs(Blank, s, i + 1, q);
  }

  /** The value in front of a boundary is the pattern's, but for blanks at its end. */
  lemma ScannedValue(s: string, i: nat, j: nat)
    requires IsStart(Blank, s, i) && KeyEnd(s, i) < j <= |s|
    requires (j < |s| ==> Boundary(s, j)) && forall k :: KeyEnd(s, i) < k < j ==> !Boundary(s, k)
    ensures Trim(GoSpace, s[KeyEnd(s, i) + 1..j]) == Trim(GoSpace, ValueAt(Blank, s, i))
  {
    hide Trim, Boundary, GoSpace, IsStart, StartsPair, KeyEnd, BlankEnd, NextStart;
    LookAheadIsNext(s, i, j);
    var from := KeyEnd(s, i) + 1;
    if j < |s| {
      var q := BlankEnd(s, j + 1);
      EndsWithStart(s, j, q);
      CutTail(s, from, j, q - 1);
    }
  }

  lemma CutTail(s: string, from: nat, j: nat, to: nat)
    requires from <= j <= to <= |s| && forall k :: j <= k < to ==> Blank(s[k])
    ensures Trim(GoSpace, s[from..j]) == Trim(GoSpace, s[from..to])
  {
    hide Trim;
    assert forall k :: 0 <= k < to - j ==> s[j..to][k] == s[j + k];
    TrimTail(s[from..j], s[j..to]);
    assert s[from..j] + s[j..to] == s[from..to];
  }

  lemma AfterValue(s: string, i: nat, j: nat)
    requires IsStart(Blank, s, i) && KeyEnd(s, i) < j <= |s|
    requires (j < |s| ==> Boundary(s, j)) && forall k :: KeyEnd(s, i) < k < j ==> !Boundary(s, k)
    ensures Matches(Blank, s, i + 1) == Matches(Blank, s, j)
    ensures j < |s| ==> Blank(s[j])
  {
    hide Matches, IsStart, StartsPair, KeyEnd, BlankEnd, NextStart;
    LookAheadIsNext(s, i, j);
    if j < |s| {
      EndsWithStart(s, j, BlankEnd(s, j + 1));
    }
    NoStarts(Blank, s, i + 1, j);
  }

  lemma EndsWithStart(s: string, j: nat, q: nat)
    requires j < |s| && Boundary(s, j) && q == BlankEnd(s, j + 1)
    ensures j < q < |s| && forall k :: j <= k < q ==> Blank(s[k])
  {
  }

  /** One found pair, and where to go on. */
  lemma FoundPair(s: string, i: nat, j: nat)
    requires i < |s| && (i == 0 || Blank(s[i - 1])) && StartsPair(s, i) && KeyEnd(s, i) < j <= |s|
    requires (j < |s| ==> Boundary(s, j)) && forall k :: KeyEnd(s, i) < k < j ==> !Boundary(s, k)
    ensures Matches(Blank, s, i) == [(s[i..KeyEnd(s, i)], Trim(GoSpace, s[KeyEnd(s, i) + 1..j]))] + Matches(Blank, s, j)
    ensures j < |s| ==> Blank(s[j])
  {
    hide Boundary, StartsPair, KeyEnd, Trim, ValueAt;
    assert IsStart(Blank, s, i);
    ScannedValue(s, i, j);
    AfterValue(s, i, j);
  }

  /** Scans one word: a pair, or something else that is skipped. */
  method ScanWord(ext: string, start: nat) returns (found: seq<Pair>, next: nat)
    requires start < |ext| && !Blank(ext[start]) && (start == 0 || Blank(ext[start - 1]))
    ensures start < next <= |ext| && (next == |ext| || Blank(ext[next]))
    ensures Matches(Blank, ext, start) == found + Matches(Blank, ext, next)
  {
    hide Matches, Trim, Boundary, KeyEnd, BlankEnd;
    var e := SkipKey(ext, start);
    if e == start || e >= |ext| || ext[e] != '=' {
      next := SkipWord(ext, e);
      SkippedWord(ext, start, e, next);
      found := [];
    } else {
      next := FindValueEnd(ext, e + 1);
      FoundPair(ext, start, next);
      found := [(ext[start..e], Trim(GoSpace, ext[e + 1..next]))];
    }
  }

  /** Calls are collected in order. */
  method WalkCefExt(ext: string) returns (calls: seq<Pair>)
    ensures calls == Matches(Blank, ext, 0)
  {
    hide Matches;
    var i := 0;
    calls := [];
    while i < |ext|
      invariant i <= |ext| && (i == 0 || i == |ext| || Blank(ext[i]))
      invariant calls + Matches(Blank, ext, i) == Matches(Blank, ext, 0)
    {
      var start := SkipBlanks(ext, i);
      SkippedBlanks(ext, i, start);
      if start >= |ext| {
        MatchesAtEnd(ext);
        return;
      }
      var found, next := ScanWord(ext, start);
      Regroup(calls, found, Matches(Blank, ext, next));
      calls := calls + found;
      i := next;
    }
    MatchesAtEnd(ext);
  }

  lemma Regroup<T>(a: seq<T>, b: seq<T>, c: seq<T>)
    ensures a + (b + c) == a + b + c
  {
  }

  lemma MatchesAtEnd(s: string)
    ensures Matches(Blank, s, |s|) == []
  {
  }

  lemma SkippedBlanks(s: string, i: nat, j: nat)
    requires i <= |s| && j == BlankEnd(s, i)
    ensures Matches(Blank, s, i) == Matches(Blank, s, j)
  {
    NoStarts(Blank, s, i, j);
  }

  lemma SkippedWord(s: string, i: nat, e: nat, j: nat)
    requires i < |s| && e == KeyEnd(s, i) && !StartsPair(s, i) && e <= j <= |s| && forall k :: e <= k < j ==> !Blank(s[k])
    ensures Matches(Blank, s, i) == Matches(Blank, s, j)
  {
    forall p | i <= p < j
      ensures !IsStart(Blank, s, p)
    {
      if p > i && p - 1 < e {
        assert KeyChar(s[p - 1]);
      }
    }
    NoStarts(Blank, s, i, j);
  }

  // ---- compared with the former pattern ----

  lemma {:induction false} MoreStarts(s: string, i: nat)
    requires i <= |s|
    ensures |Matches(Blank, s, i)| <= |Matches(PatternSpace, s, i)|
    ensures (exists p :: i <= p < |s| && IsStart(PatternSpace, s, p) && !IsStart(Blank, s, p)) ==>
      |Matches(Blank, s, i)| < |Matches(PatternSpace, s, i)|
    decreases |s| - i
  {
    hide ValueAt, Trim, StartsPair;
    if i < |s| {
      MoreStarts(s, i + 1);
    }
  }

  lemma SameValue(s: string, i: nat)
    requires i < |s| && forall p :: 0 <= p < |s| ==> IsStart(PatternSpace, s, p) == IsStart(Blank, s, p)
    ensures ValueAt(PatternSpace, s, i) == ValueAt(Blank, s, i)
  {
    hide IsStart, KeyEnd;
    NextStartIs(PatternSpace, s, i + 1, NextStart(Blank, s, i + 1));
  }

  lemma {:induction false} SameStarts(s: string, i: nat)
    requires i <= |s| && forall p :: 0 <= p < |s| ==> IsStart(PatternSpace, s, p) == IsStart(Blank, s, p)
    ensures Matches(Blank, s, i) == Matches(PatternSpace, s, i)
    decreases |s| - i
  {
    hide IsStart, Trim, ValueAt, KeyEnd;
    if i < |s| {
      SameStarts(s, i + 1);
      SameValue(s, i);
    }
  }

  /** A key directly after a line break. */
  ghost predicate BrokenBeforeKey(s: string, p: nat) {
    1 <= p < |s| && LineBreak(s[p - 1]) && StartsPair(s, p)
  }

  /** The scanner finds what the pattern finds exactly when no pair follows a line break. */
  lemma AgreesWithPattern(s: string)
    ensures Matches(Blank, s, 0) == Matches(PatternSpace, s, 0) <==> forall p :: !BrokenBeforeKey(s, p)
  {
    hide Matches, StartsPair;
    MoreStarts(s, 0);
    if forall p :: !BrokenBeforeKey(s, p) {
      forall p | 0 <= p < |s|
        ensures IsStart(PatternSpace, s, p) == IsStart(Blank, s, p)
      {
        assert !BrokenBeforeKey(s, p);
      }
      SameStarts(s, 0);
    } else {
      var p :| BrokenBeforeKey(s, p);
      assert IsStart(PatternSpace, s, p) && !IsStart(Blank, s, p);
    }
  }

  /** The smallest difference: the scanner takes the second line for the first one's value. */
  lemma LineBreakHidesPair()
    ensures BrokenBeforeKey("a=1\nb=2", 4) && Matches(Blank, "a=1\nb=2", 0) != Matches(PatternSpace, "a=1\nb=2", 0)
  {
    hide Matches, KeyEnd;
    var s := "a=1\nb=2";
    KeyEndIs(s, 4, 5);
    AgreesWithPattern(s);
  }

  // ---- undoing a join ----

  function Written(p: Pair): string {
    p.0 + "=" + p.1
  }

  /** Pairs written as key=value with single spaces between. */
  function Joined(ps: seq<Pair>): string {
    if ps == [] then "" else if |ps| == 1 then Written(ps[0]) else Written(ps[0]) + " " + Joined(ps[1..])
  }

  /** A key with at least one character, all of them key characters. */
  predicate GoodKey(k: string) {
    k != "" && forall i :: 0 <= i < |k| ==> KeyChar(k[i])
  }

  /** A trimmed value in which no blank comes right before a key and an equals sign. */
  ghost predicate GoodValue(v: string) {
    Trimmed(GoSpace, v) && forall p :: 1 <= p < |v| && Blank(v[p - 1]) ==> !StartsPair(v, p)
  }

  ghost predicate GoodPair(p: Pair) {
    GoodKey(p.0) && GoodValue(p.1)
  }

  // every pair found is good

  /** A pair inside a part of the text is a pair of the text. */
  lemma StartsPairLifts(s: string, at: nat, v: string, p: nat)
    requires at + |v| <= |s| && s[at..at + |v|] == v && p <= |v| && StartsPair(v, p)
    ensures StartsPair(s, at + p)
  {
    var f := KeyEnd(v, p);
    assert forall k :: 0 <= k < |v| ==> v[k] == s[at + k];
    assert forall k :: at + p <= k <= at + f ==> s[k] == v[k - at];
    KeyEndIs(s, at + p, at + f);
  }

  lemma KeyEndIs(s: string, i: nat, e: nat)
    requires i <= e <= |s| && (e < |s| ==> !KeyChar(s[e])) && forall k :: i <= k < e ==> KeyChar(s[k])
    ensures KeyEnd(s, i) == e
  {
    var f := KeyEnd(s, i);
  }

  lemma PartOfValue(s: string, f: nat, t: nat, a: nat, b: nat)
    requires a <= b && f + b <= t <= |s|
    ensures Between(s, f, t)[a..b] == s[f + a..f + b]
  {
  }

  lemma FoundValueIsGood(s: string, i: nat)
    requires IsStart(Blank, s, i)
    ensures GoodValue(Trim(GoSpace, ValueAt(Blank, s, i)))
  {
    hide Trim, StartsPair, GoSpace, Trimmed, KeyEnd;
    var x, from, to := ValueAt(Blank, s, i), KeyEnd(s, i) + 1, ValueEnd(Blank, s, i);
    var v := Trim(GoSpace, x);
    var a := TrimIsPart(x);
    forall p | 1 <= p < |v| && Blank(v[p - 1])
      ensures !StartsPair(v, p)
    {
      PartOfValue(s, from, to, a, a + |v|);
      NotInside(s, i, from + a, v, p);
    }
  }

  lemma NotInside(s: string, i: nat, at: nat, v: string, p: nat)
    requires i < at && at + |v| <= |s| && s[at..at + |v|] == v && 1 <= p < |v| && Blank(v[p - 1])
    requires at + |v| <= NextStart(Blank, s, i + 1)
    ensures !StartsPair(v, p)
  {
    hide StartsPair;
    assert s[at + p - 1] == v[p - 1];
    assert !IsStart(Blank, s, at + p);
    if StartsPair(v, p) {
      StartsPairLifts(s, at, v, p);
      assert false;
    }
  }

  lemma {:induction false} FoundIsGood(s: string, i: nat)
    requires i <= |s|
    ensures forall m :: 0 <= m < |Matches(Blank, s, i)| ==> GoodPair(Matches(Blank, s, i)[m])
    decreases |s| - i
  {
    hide Trim, ValueAt, GoodValue;
    if i < |s| {
      FoundIsGood(s, i + 1);
      if IsStart(Blank, s, i) {
        FoundValueIsGood(s, i);
      }
    }
  }

  // after a blank the scan starts afresh

  lemma {:induction false} KeyEndShift(s: string, i: nat, j: nat)
    requires i <= j <= |s|
    ensures KeyEnd(s, j) == i + KeyEnd(s[i..], j - i)
    decreases |s| - j
  {
    if j < |s| {
      KeyEndShift(s, i, j + 1);
    }
  }

  lemma StartShift(s: string, i: nat, j: nat)
    requires 1 <= i <= j <= |s| && Blank(s[i - 1])
    ensures IsStart(Blank, s, j) <==> IsStart(Blank, s[i..], j - i)
  {
    hide KeyEnd;
    KeyEndShift(s, i, j);
  }

  lemma NextShift(s: string, i: nat, j: nat)
    requires 1 <= i <= j <= |s| && Blank(s[i - 1])
    ensures NextStart(Blank, s, j) == i + NextStart(Blank, s[i..], j - i)
  {
    hide IsStart;
    var q := NextStart(Blank, s[i..], j - i);
    forall p | j <= p <= i + q
      ensures IsStart(Blank, s, p) <==> IsStart(Blank, s[i..], p - i)
    {
      StartShift(s, i, p);
    }
    NextStartIs(Blank, s, j, i + q);
  }

  lemma KeyShift(s: string, i: nat, j: nat)
    requires i <= j <= |s|
    ensures s[j..KeyEnd(s, j)] == s[i..][j - i..KeyEnd(s[i..], j - i)]
  {
    hide KeyEnd;
    KeyEndShift(s, i, j);
    PartOfPart(s, i, j, KeyEnd(s, j));
  }

  lemma ValueEndShift(s: string, i: nat, j: nat)
    requires 1 <= i <= j < |s| && Blank(s[i - 1])
    ensures ValueEnd(Blank, s, j) == i + ValueEnd(Blank, s[i..], j - i)
  {
    hide IsStart, NextStart;
    NextShift(s, i, j + 1);
  }

  lemma BetweenShift(s: string, i: nat, a: nat, b: nat)
    requires i <= a && i <= b && i <= |s|
    ensures Between(s, a, b) == Between(s[i..], a - i, b - i)
  {
    if a <= b <= |s| {
      PartOfPart(s, i, a, b);
    }
  }

  lemma ValueShift(s: string, i: nat, j: nat)
    requires 1 <= i <= j < |s| && Blank(s[i - 1])
    ensures ValueAt(Blank, s, j) == ValueAt(Blank, s[i..], j - i)
  {
    hide KeyEnd, ValueEnd, Between;
    KeyEndShift(s, i, j);
    ValueEndShift(s, i, j);
    BetweenShift(s, i, KeyEnd(s, j) + 1, ValueEnd(Blank, s, j));
  }

  lemma {:induction false} MatchesShift(s: string, i: nat, j: nat)
    requires 1 <= i <= j <= |s| && Blank(s[i - 1])
    ensures Matches(Blank, s, j) == Matches(Blank, s[i..], j - i)
    decreases |s| - j
  {
    hide Trim, IsStart, KeyEnd, ValueAt;
    if j < |s| {
      MatchesShift(s, i, j + 1);
      StartShift(s, i, j);
      KeyShift(s, i, j);
      ValueShift(s, i, j);
    }
  }

  // a good pair in front is found, and the rest after it

  lemma WrittenStart(p: Pair, tail: string)
    requires GoodKey(p.0)
    ensures StartsPair(Written(p) + tail, 0) && KeyEnd(Written(p) + tail, 0) == |p.0|
  {
    var s := Written(p) + tail;
    assert forall k :: 0 <= k < |p.0| ==> s[k] == p.0[k];
    assert s[|p.0|] == '=';
    KeyEndIs(s, 0, |p.0|);
  }

  lemma NoStartInValue(p: Pair, tail: string, i: nat)
    requires GoodPair(p) && (tail == "" || tail[0] == ' ') && |p.0| + 1 < i <= |Written(p)|
    ensures !IsStart(Blank, Written(p) + tail, i)
  {
    hide Trimmed, KeyEnd, GoodKey;
    var s, at := Written(p) + tail, |p.0| + 1;
    if i < |s| && StartsPair(s, i) {
      assert s[at..at + |p.1|] == p.1;
      assert at + |p.1| < |s| ==> s[at + |p.1|] == tail[0];
      StartsPairDrops(s, p.1, at, i - at);
      assert s[i - 1] == p.1[i - at - 1];
    }
  }

  /** Nothing starts inside a good pair. */
  lemma NoInnerStart(p: Pair, tail: string, i: nat)
    requires GoodPair(p) && (tail == "" || tail[0] == ' ') && 1 <= i <= |Written(p)|
    ensures !IsStart(Blank, Written(p) + tail, i)
  {
    hide GoodValue, StartsPair;
    var s := Written(p) + tail;
    if i <= |p.0| {
      assert s[i - 1] == p.0[i - 1];
    } else if i == |p.0| + 1 {
      assert s[i - 1] == '=';
    } else {
      NoStartInValue(p, tail, i);
    }
  }

  /** A pair does not reach over the blank after a part. */
  lemma StartsPairDrops(s: string, v: string, at: nat, p: nat)
    requires at + |v| <= |s| && s[at..at + |v|] == v && p <= |v| && StartsPair(s, at + p)
    requires at + |v| < |s| ==> s[at + |v|] == ' '
    ensures p < |v| && StartsPair(v, p)
  {
    var e := KeyEnd(s, at + p);
    assert forall k :: 0 <= k < |v| ==> v[k] == s[at + k];
    assert e < at + |v|;
    assert forall k :: p <= k <= e - at ==> v[k] == s[at + k];
    KeyEndIs(v, p, e - at);
  }

  lemma FirstFound(p: Pair, tail: string)
    requires GoodPair(p) && (tail == "" || (|tail| > 1 && tail[0] == ' ' && StartsPair(tail[1..], 0)))
    ensures Matches(Blank, Written(p) + tail, 0) == [p] + Matches(Blank, if tail == "" then "" else tail[1..], 0)
  {
    hide IsStart, StartsPair, KeyEnd, Matches, Trim, Trimmed, GoodKey;
    var s, w := Written(p) + tail, |Written(p)|;
    WrittenStart(p, tail);
    forall i | 1 <= i <= w
      ensures !IsStart(Blank, s, i)
    {
      NoInnerStart(p, tail, i);
    }
    var q := if tail == "" then |s| else w + 1;
    MatchesAtEnd("");
    if tail != "" {
      assert s[w + 1..] == tail[1..] && s[w] == ' ';
      StartsAfterBlank(s, w + 1);
      MatchesShift(s, w + 1, w + 1);
    }
    NextStartIs(Blank, s, 1, q);
    NoStarts(Blank, s, 1, q);
    MatchesFrom(s, p, q);
  }

  lemma StartsAfterBlank(s: string, i: nat)
    requires 1 <= i < |s| && Blank(s[i - 1]) && StartsPair(s[i..], 0)
    ensures IsStart(Blank, s, i)
  {
    hide KeyEnd;
    KeyEndShift(s, i, i);
  }

  lemma MatchesFrom(s: string, p: Pair, q: nat)
    requires Written(p) <= s && StartsPair(s, 0) && KeyEnd(s, 0) == |p.0| && Trimmed(GoSpace, p.1)
    requires q == NextStart(Blank, s, 1) && (if q == |s| then |s| == |Written(p)| else q == |Written(p)| + 1)
    requires Matches(Blank, s, 1) == Matches(Blank, s, q)
    ensures Matches(Blank, s, 0) == [p] + if q == |s| then [] else Matches(Blank, s, q)
  {
    hide Trim, KeyEnd, NextStart, GoSpace;
    assert ValueAt(Blank, s, 0) == p.1;
    assert s[..|p.0|] == p.0;
    assert IsStart(Blank, s, 0);
  }

  lemma {:induction false} GoodPairsComeBack(ps: seq<Pair>)
    requires forall m :: 0 <= m < |ps| ==> GoodPair(ps[m])
    ensures Matches(Blank, Joined(ps), 0) == ps
  {
    hide Matches, GoodPair, StartsPair;
    if ps == [] {
      MatchesAtEnd("");
    } else if |ps| == 1 {
      assert Written(ps[0]) + "" == Written(ps[0]);
      FirstFound(ps[0], "");
      MatchesAtEnd("");
    } else {
      var rest := Joined(ps[1..]);
      var tail := " " + rest;
      GoodPairsComeBack(ps[1..]);
      JoinedStarts(ps[1..]);
      assert tail[1..] == rest;
      FirstFound(ps[0], tail);
      assert Written(ps[0]) + " " + rest == Written(ps[0]) + tail;
    }
  }

  lemma JoinedStarts(ps: seq<Pair>)
    requires ps != [] && GoodPair(ps[0])
    ensures StartsPair(Joined(ps), 0) && |Joined(ps)| > 0
  {
    if |ps| == 1 {
      assert Written(ps[0]) + "" == Written(ps[0]);
      WrittenStart(ps[0], "");
    } else {
      var tail := " " + Joined(ps[1..]);
      assert Joined(ps) == Written(ps[0]) + tail;
      WrittenStart(ps[0], tail);
    }
  }

  /**
   * Scanning undoes joining exactly when every key is made of key characters and every
   * value is trimmed and has no blank right before a key and an equals sign.
   */
  lemma ScanUndoesJoin(ps: seq<Pair>)
    ensures Matches(Blank, Joined(ps), 0) == ps <==> forall m :: 0 <= m < |ps| ==> GoodPair(ps[m])
  {
    hide Matches, GoodPair;
    FoundIsGood(Joined(ps), 0);
    if forall m :: 0 <= m < |ps| ==> GoodPair(ps[m]) {
      GoodPairsComeBack(ps);
    }
  }
}
