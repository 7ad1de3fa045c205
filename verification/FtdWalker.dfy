/** The in-place splitter of Cisco FTD "Key: value, Key: value" records. */
module FtdWalker {
  import opened Common
  import opened Text
  import Cidr

  type Pair = (string, string)

  // ---- the former way: split at ", ", then at the first colon ----

  predicate SeparatorAt(s: string, i: nat) {
    i + 1 < |s| && s[i] == ',' && s[i + 1] == ' '
  }

  /** The first separator at or after i, or the end. */
  function NextSeparator(s: string, i: nat): (q: nat)
    requires i <= |s|
    ensures i <= q <= |s| && (q < |s| ==> SeparatorAt(s, q))
    ensures forall p :: i <= p < q ==> !SeparatorAt(s, p)
    decreases |s| - i
  {
    if i == |s| || SeparatorAt(s, i) then i else NextSeparator(s, i + 1)
  }

  /** The parts between separators; there is always at least one. */
  function Split(s: string): (parts: seq<string>)
    ensures |parts| >= 1
    decreases |s|
  {
    var q := NextSeparator(s, 0);
    if q == |s| then [s] else [s[..q]] + Split(s[q + 2..])
  }

  /** The call for one part: none without a colon or without a key before it. */
  function CallOf(part: string): Option<Pair> {
    var colon := Cidr.IndexOf(part, ':');
    if colon.None? then None
    else
      var key := Trim(GoSpace, part[..colon.value]);
      if key == "" then None else Some((key, Trim(GoSpace, part[colon.value + 1..])))
  }

  /** The first colon of the part is at i. */
  predicate FirstColon(part: string, i: int) {
    0 <= i < |part| && part[i] == ':' && forall k :: 0 <= k < i ==> part[k] != ':'
  }

  /** A part's call has the trimmed texts before and after its first colon; there is none for a blank key. */
  lemma CallExactly(part: string, key: string, val: string)
    ensures CallOf(part) == Some((key, val)) <==>
      key != "" && exists i :: FirstColon(part, i) && Trim(GoSpace, part[..i]) == key && Trim(GoSpace, part[i + 1..]) == val
  {
    hide Trim;
    Cidr.IndexOfFacts(part, ':');
    hide Cidr.IndexOf;
    if i :| FirstColon(part, i) && Trim(GoSpace, part[..i]) == key && Trim(GoSpace, part[i + 1..]) == val && key != "" {
      assert Cidr.IndexOf(part, ':').Some?;
      assert Cidr.IndexOf(part, ':').value == i;
    }
    if CallOf(part) == Some((key, val)) {
      assert FirstColon(part, Cidr.IndexOf(part, ':').value);
    }
  }

  function Calls(s: string): seq<Pair> {
    Present(CallOf, Split(s))
  }

  // ---- the splitter ----

  method EmitPart(part: string, calls: seq<Pair>) returns (more: seq<Pair>)
    ensures more == calls + Present(CallOf, [part])
  {
    hide Trim, Cidr.IndexOf;
    assert [part][1..] == [] && Present(CallOf, []) == [];
    var colon := Cidr.IndexOf(part, ':');
    if colon.None? {
      return calls;
    }
    var key := Trim(GoSpace, part[..colon.value]);
    if key == "" {
      return calls;
    }
    more := calls + [(key, Trim(GoSpace, part[colon.value + 1..]))];
  }

  lemma SplitAtSeparator(s: string, start: nat, i: nat)
    requires start <= i && SeparatorAt(s, i) && forall p :: start <= p < i ==> !SeparatorAt(s, p)
    ensures Split(s[start..]) == [s[start..i]] + Split(s[i + 2..])
  {
    var t := s[start..];
    var q := NextSeparator(t, 0);
    assert SeparatorAt(t, i - start);
    forall p | 0 <= p < i - start
      ensures !SeparatorAt(t, p)
    {
      assert !SeparatorAt(s, start + p);
    }
    assert q == i - start;
    assert t[..q] == s[start..i] && t[q + 2..] == s[i + 2..];
  }

  lemma SplitLast(s: string, start: nat)
    requires start <= |s| && forall p :: start <= p < |s| ==> !SeparatorAt(s, p)
    ensures Split(s[start..]) == [s[start..]]
  {
    var t := s[start..];
    forall p | 0 <= p < |t|
      ensures !SeparatorAt(t, p)
    {
      assert !SeparatorAt(s, start + p);
    }
  }

  lemma PresentJoin(part: string, rest: seq<string>)
    ensures Present(CallOf, [part] + rest) == Present(CallOf, [part]) + Present(CallOf, rest)
  {
    hide CallOf;
    assert ([part] + rest)[1..] == rest && [part][1..] == [];
  }

  /** Makes the same calls in the same order as splitting at ", " and then at the first colon. */
  method WalkFtdKv(s: string) returns (calls: seq<Pair>)
    ensures calls == Calls(s)
  {
    hide Present, Split, CallOf;
    var start, i := 0, 0;
    calls := [];
    assert s[0..] == s;
    while i < |s|
      invariant start <= i <= |s| && forall p :: start <= p < i ==> !SeparatorAt(s, p)
      invariant calls + Present(CallOf, Split(s[start..])) == Calls(s)
    {
      if s[i] != ',' || i + 1 >= |s| || s[i + 1] != ' ' {
        i := i + 1;
      } else {
        SplitAtSeparator(s, start, i);
        PresentJoin(s[start..i], Split(s[i + 2..]));
        calls := EmitPart(s[start..i], calls);
        start := i + 2;
        i := i + 2;
      }
    }
    SplitLast(s, start);
    calls := EmitPart(s[start..], calls);
  }

  // ---- splitting is the inverse of joining ----

  function JoinParts(parts: seq<string>): string {
    if parts == [] then "" else if |parts| == 1 then parts[0] else parts[0] + ", " + JoinParts(parts[1..])
  }

  ghost predicate NoSeparator(part: string) {
    forall p: nat :: !SeparatorAt(part, p)
  }

  /** Splitting loses nothing and leaves no separator inside a part. */
  lemma {:induction false} SplitIsExact(s: string)
    ensures JoinParts(Split(s)) == s
    ensures forall k :: 0 <= k < |Split(s)| ==> NoSeparator(Split(s)[k])
    decreases |s|
  {
    var q := NextSeparator(s, 0);
    if q < |s| {
      var rest := s[q + 2..];
      SplitIsExact(rest);
      HeadHasNone(s, q);
      var parts := Split(s);
      assert parts == [s[..q]] + Split(rest);
      assert parts[1..] == Split(rest);
      assert s == s[..q] + ", " + rest;
    } else {
      assert NoSeparator(s);
    }
  }

  lemma HeadHasNone(s: string, q: nat)
    requires q <= |s| && forall p :: 0 <= p < q ==> !SeparatorAt(s, p)
    ensures NoSeparator(s[..q])
  {
    forall p: nat
      ensures !SeparatorAt(s[..q], p)
    {
      if p + 1 < q {
        assert !SeparatorAt(s, p);
      }
    }
  }

  /** Parts come back from their join exactly when none has a separator inside. */
  lemma {:induction false} SplitUndoesJoin(parts: seq<string>)
    requires parts != []
    ensures Split(JoinParts(parts)) == parts <==> forall k :: 0 <= k < |parts| ==> NoSeparator(parts[k])
  {
    SplitIsExact(JoinParts(parts));
    if forall k :: 0 <= k < |parts| ==> NoSeparator(parts[k]) {
      PartsComeBack(parts);
    }
  }

  lemma {:induction false} PartsComeBack(parts: seq<string>)
    requires parts != [] && forall k :: 0 <= k < |parts| ==> NoSeparator(parts[k])
    ensures Split(JoinParts(parts)) == parts
  {
    if |parts| == 1 {
      assert parts == [parts[0]];
    } else {
      var p, rest := parts[0], JoinParts(parts[1..]);
      var s := p + ", " + rest;
      PartsComeBack(parts[1..]);
      assert NoSeparator(p);
      forall i | 0 <= i < |p|
        ensures !SeparatorAt(s, i)
      {
        assert !SeparatorAt(p, i);
      }
      assert s[0..] == s && s[0..|p|] == p && s[|p| + 2..] == rest;
      SplitAtSeparator(s, 0, |p|);
      assert parts == [p] + parts[1..];
    }
  }

  // ---- records written as "Key: value" ----

  function WrittenPart(p: Pair): string {
    p.0 + ": " + p.1
  }

  function WrittenParts(ps: seq<Pair>): seq<string> {
    if ps == [] then [] else [WrittenPart(ps[0])] + WrittenParts(ps[1..])
  }

  function Written(ps: seq<Pair>): string {
    JoinParts(WrittenParts(ps))
  }

  /** A trimmed key without colon, a trimmed value, neither with a separator inside. */
  ghost predicate GoodPair(p: Pair) {
    p.0 != "" && Trimmed(GoSpace, p.0) && ':' !in p.0 && NoSeparator(p.0) && Trimmed(GoSpace, p.1) && NoSeparator(p.1)
  }

  lemma ColonAt(part: string, k: nat)
    requires k < |part| && part[k] == ':' && forall i :: 0 <= i < k ==> part[i] != ':'
    ensures Cidr.IndexOf(part, ':') == Some(k)
  {
    Cidr.IndexOfFacts(part, ':');
  }

  lemma GoodPairIsCalled(p: Pair)
    requires GoodPair(p)
    ensures CallOf(WrittenPart(p)) == Some(p) && NoSeparator(WrittenPart(p))
  {
    hide Trim;
    var part := WrittenPart(p);
    ColonAt(part, |p.0|);
    assert part[..|p.0|] == p.0;
    assert part[|p.0| + 1..] == " " + p.1;
    TrimBlankHead(p.1);
    forall i: nat
      ensures !SeparatorAt(part, i)
    {
      if i + 1 < |p.0| {
        assert !SeparatorAt(p.0, i);
      } else if i >= |p.0| + 2 {
        assert !SeparatorAt(p.1, i - |p.0| - 2);
      }
    }
  }

  lemma TrimBlankHead(v: string)
    requires Trimmed(GoSpace, v)
    ensures Trim(GoSpace, " " + v) == v
  {
    hide GoSpace;
    assert GoSpace(' ') by { BlankIsSpace(); }
    var x := " " + v;
    assert x[0] == ' ' && x[1..] == v;
    TrimmedStays(v);
    assert TrimLeft(GoSpace, x) == TrimLeft(GoSpace, v);
    hide TrimLeft, TrimRight;
  }

  lemma BlankIsSpace()
    ensures GoSpace(' ')
  {
  }

  lemma TrimmedStays(v: string)
    requires Trimmed(GoSpace, v)
    ensures TrimLeft(GoSpace, v) == v && TrimRight(GoSpace, v) == v
  {
    hide GoSpace;
  }

  lemma PartHasNone(s: string, a: nat, b: nat)
    requires a <= b <= |s| && NoSeparator(s)
    ensures NoSeparator(s[a..b])
  {
    forall p: nat
      ensures !SeparatorAt(s[a..b], p)
    {
      assert !SeparatorAt(s, a + p);
    }
  }

  /** Whatever is called is good. */
  lemma CalledIsGood(part: string)
    requires NoSeparator(part) && CallOf(part).Some?
    ensures GoodPair(CallOf(part).value)
  {
    hide Trim, GoSpace, NoSeparator;
    var k := Cidr.IndexOf(part, ':').value;
    Cidr.IndexOfFacts(part, ':');
    var key, value := part[..k], part[k + 1..];
    assert key == part[0..k] && value == part[k + 1..|part|];
    PartHasNone(part, 0, k);
    PartHasNone(part, k + 1, |part|);
    var a := TrimIsPart(key);
    PartHasNone(key, a, a + |Trim(GoSpace, key)|);
    assert forall i :: 0 <= i < |Trim(GoSpace, key)| ==> Trim(GoSpace, key)[i] == key[a + i];
    var b := TrimIsPart(value);
    PartHasNone(value, b, b + |Trim(GoSpace, value)|);
  }

  lemma {:induction false} CallsAreGood(parts: seq<string>)
    requires forall k :: 0 <= k < |parts| ==> NoSeparator(parts[k])
    ensures forall m :: 0 <= m < |Present(CallOf, parts)| ==> GoodPair(Present(CallOf, parts)[m])
  {
    hide CallOf, NoSeparator, GoodPair;
    if parts != [] {
      CallsAreGood(parts[1..]);
      if CallOf(parts[0]).Some? {
        CalledIsGood(parts[0]);
      }
    }
  }

  lemma {:induction false} GoodParts(ps: seq<Pair>)
    requires forall m :: 0 <= m < |ps| ==> GoodPair(ps[m])
    ensures |WrittenParts(ps)| == |ps|
    ensures forall k :: 0 <= k < |ps| ==> NoSeparator(WrittenParts(ps)[k])
    ensures Present(CallOf, WrittenParts(ps)) == ps
  {
    hide CallOf, NoSeparator, GoodPair, WrittenPart;
    if ps != [] {
      GoodPairIsCalled(ps[0]);
      GoodParts(ps[1..]);
      PresentJoin(WrittenPart(ps[0]), WrittenParts(ps[1..]));
      assert [WrittenPart(ps[0])][1..] == [];
    }
  }

  /** The splitter undoes writing exactly for trimmed pairs without separators, keys without colons. */
  lemma WalkUndoesWriting(ps: seq<Pair>)
    ensures Calls(Written(ps)) == ps <==> forall m :: 0 <= m < |ps| ==> GoodPair(ps[m])
  {
    hide CallOf, NoSeparator, GoodPair, Split;
    SplitIsExact(Written(ps));
    CallsAreGood(Split(Written(ps)));
    if forall m :: 0 <= m < |ps| ==> GoodPair(ps[m]) {
      if ps == [] {
        NothingWritten();
      } else {
        GoodParts(ps);
        PartsComeBack(WrittenParts(ps));
      }
    }
  }

  lemma NothingWritten()
    ensures Calls("") == []
  {
    assert Split("") == [""];
  }
}
