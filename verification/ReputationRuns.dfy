/** Runs of the reputation index against a plain set of (list, category, range) triples. */
module ReputationRuns {
  import opened Common
  import opened Lists
  import opened ReputationNormalize
  import opened ReputationLaws
  import opened ReputationIndex
  import Cidr
  import Text
  import NetworkText

  datatype Triple = Triple(list: string, cat: string, start: U32, end: U32)

  function TripleOf(r: Range): Triple {
    Triple(r.list, r.cat, r.start, r.end)
  }

  /** What a list of ranges says: names trimmed; ranges without list name or the wrong way round say nothing. */
  function TriplesOf(rs: seq<Range>): set<Triple> {
    set i | 0 <= i < |rs| && Cidr.GoTrim(rs[i].list) != "" && rs[i].start <= rs[i].end ::
      Triple(Cidr.GoTrim(rs[i].list), Cidr.GoTrim(rs[i].cat), rs[i].start, rs[i].end)
  }

  /** The same for ranges given for one list, whatever list they name themselves. */
  function TriplesFor(name: string, rs: seq<Range>): set<Triple> {
    set i | 0 <= i < |rs| && name != "" && rs[i].start <= rs[i].end ::
      Triple(name, Cidr.GoTrim(rs[i].cat), rs[i].start, rs[i].end)
  }

  lemma TriplesAreCleaned(rs: seq<Range>)
    ensures TriplesOf(rs) == set i | 0 <= i < |rs| && Usable(Clean(rs[i])) :: TripleOf(Clean(rs[i]))
  {
    hide Cidr.GoTrim;
    forall i | 0 <= i < |rs|
      ensures Usable(Clean(rs[i])) <==> Cidr.GoTrim(rs[i].list) != "" && rs[i].start <= rs[i].end
      ensures TripleOf(Clean(rs[i])) == Triple(Cidr.GoTrim(rs[i].list), Cidr.GoTrim(rs[i].cat), rs[i].start, rs[i].end)
    {
    }
    hide Usable, Clean, TripleOf;
  }

  lemma RelabelledTriples(name: string, rs: seq<Range>)
    requires Cidr.GoTrim(name) == name
    ensures TriplesFor(name, rs) == TriplesOf(Relabel(rs, name))
  {
    hide Cidr.GoTrim;
    var to := Relabel(rs, name);
    assert |to| == |rs| && forall i :: 0 <= i < |rs| ==> to[i] == rs[i].(list := name);
    hide Relabel;
  }

  function WithoutList(s: set<Triple>, name: string): set<Triple> {
    set t | t in s && t.list != name
  }

  /** The operations on the plain set: no sorting, no merging. */
  function PlainStep(s: set<Triple>, op: Op): set<Triple> {
    match op
    case ReplaceAllOp(rs) => TriplesOf(rs)
    case ReplaceListOp(name, rs) =>
      var trimmed := Cidr.GoTrim(name);
      WithoutList(s, trimmed) + TriplesFor(trimmed, rs)
    case DeleteListOp(name) => WithoutList(s, Cidr.GoTrim(name))
  }

  function PlainRun(ops: seq<Op>): set<Triple> {
    if ops == [] then {} else PlainStep(PlainRun(ops[..|ops| - 1]), ops[|ops| - 1])
  }

  ghost predicate PlainCovers(s: set<Triple>, k: Key, ip: nat) {
    exists t :: t in s && t.list == k.list && t.cat == k.cat && t.start <= ip <= t.end
  }

  /** The index covers, per list and category, what the plain set covers. */
  ghost predicate Agrees(ranges: seq<Range>, s: set<Triple>) {
    forall k: Key, ip: nat :: Covers(OfKey(ranges, k), ip) <==> PlainCovers(s, k, ip)
  }

  /** The states a run of operations can go through, from the empty index on. */
  ghost predicate IsRun(states: seq<seq<Range>>, ops: seq<Op>) {
    |states| == |ops| + 1 && states[0] == [] &&
    forall i :: 0 <= i < |ops| ==> Step(states[i], ops[i], states[i + 1])
  }

  lemma GroupCovers(rs: seq<Range>, k: Key, ip: nat)
    ensures Covers(Group(rs, k), ip) <==> PlainCovers(TriplesOf(rs), k, ip)
  {
    if Covers(Group(rs, k), ip) {
      CoveredInGroup(rs, k, ip);
    }
    if PlainCovers(TriplesOf(rs), k, ip) {
      CoveredByTriple(rs, k, ip);
    }
  }

  lemma CoveredInGroup(rs: seq<Range>, k: Key, ip: nat)
    requires Covers(Group(rs, k), ip)
    ensures PlainCovers(TriplesOf(rs), k, ip)
  {
    hide Clean, IsClean, Usable;
    var i :| 0 <= i < |Group(rs, k)| && Group(rs, k)[i].start <= ip <= Group(rs, k)[i].end;
    var r := Group(rs, k)[i];
    assert r in MapSeq(Clean, rs);
    var j :| 0 <= j < |rs| && MapSeq(Clean, rs)[j] == r;
    hide Group;
    TriplesAreCleaned(rs);
    hide TriplesOf;
    assert TripleOf(Clean(rs[j])) in TriplesOf(rs);
  }

  lemma CoveredByTriple(rs: seq<Range>, k: Key, ip: nat)
    requires PlainCovers(TriplesOf(rs), k, ip)
    ensures Covers(Group(rs, k), ip)
  {
    hide Clean, IsClean, Usable;
    TriplesAreCleaned(rs);
    hide TriplesOf;
    var t :| t in TriplesOf(rs) && t.list == k.list && t.cat == k.cat && t.start <= ip <= t.end;
    var j :| 0 <= j < |rs| && Usable(Clean(rs[j])) && TripleOf(Clean(rs[j])) == t;
    KeepHas(InGroup(k), MapSeq(Clean, rs), j);
    var i :| 0 <= i < |Group(rs, k)| && Group(rs, k)[i] == MapSeq(Clean, rs)[j];
    hide Group;
  }

  lemma {:induction false} OthersOfKey(s: seq<Range>, name: string, k: Key)
    ensures OfKey(Others(s, name), k) == if k.list == name then [] else OfKey(s, k)
  {
    if s != [] {
      OthersOfKey(s[1..], name, k);
      var head := if s[0].list != name then [s[0]] else [];
      KeepAppend(HasKey(k), head, Others(s[1..], name));
      if s[0].list != name {
        KeepOne(HasKey(k), s[0]);
      }
    }
  }

  lemma CoversAppend(a: seq<Range>, b: seq<Range>, ip: nat)
    ensures Covers(a + b, ip) <==> Covers(a, ip) || Covers(b, ip)
  {
    if Covers(a, ip) {
      var i :| 0 <= i < |a| && a[i].start <= ip <= a[i].end;
      assert (a + b)[i] == a[i];
    }
    if Covers(b, ip) {
      var i :| 0 <= i < |b| && b[i].start <= ip <= b[i].end;
      assert (a + b)[|a| + i] == b[i];
    }
    if Covers(a + b, ip) && !Covers(a, ip) {
      var i :| 0 <= i < |a + b| && (a + b)[i].start <= ip <= (a + b)[i].end;
      assert (a + b)[i] == if i < |a| then a[i] else b[i - |a|];
    }
  }

  lemma GroupAppend(a: seq<Range>, b: seq<Range>, k: Key)
    ensures Group(a + b, k) == Group(a, k) + Group(b, k)
  {
    MapAppend(Clean, a, b);
    KeepAppend(InGroup(k), MapSeq(Clean, a), MapSeq(Clean, b));
  }

  lemma WithoutCovers(s: set<Triple>, name: string, k: Key, ip: nat)
    ensures PlainCovers(WithoutList(s, name), k, ip) <==> k.list != name && PlainCovers(s, k, ip)
  {
    if k.list != name && PlainCovers(s, k, ip) {
      var t :| t in s && t.list == k.list && t.cat == k.cat && t.start <= ip <= t.end;
      assert t in WithoutList(s, name);
    }
  }

  lemma UnionCovers(s: set<Triple>, t: set<Triple>, k: Key, ip: nat)
    ensures PlainCovers(s + t, k, ip) <==> PlainCovers(s, k, ip) || PlainCovers(t, k, ip)
  {
    if PlainCovers(s, k, ip) {
      var x :| x in s && x.list == k.list && x.cat == k.cat && x.start <= ip <= x.end;
      assert x in s + t;
    }
    if PlainCovers(t, k, ip) {
      var x :| x in t && x.list == k.list && x.cat == k.cat && x.start <= ip <= x.end;
      assert x in s + t;
    }
  }

  ghost predicate AllClean(s: seq<Range>) {
    forall i :: 0 <= i < |s| ==> Usable(s[i]) && IsClean(s[i])
  }

  lemma OthersClean(s: seq<Range>, name: string)
    requires AllClean(s)
    ensures AllClean(Others(s, name))
  {
    hide Clean, IsClean, Usable;
    var kept := Others(s, name);
    forall i | 0 <= i < |kept|
      ensures Usable(kept[i]) && IsClean(kept[i])
    {
      assert kept[i] in s;
    }
  }

  /** One key after a list was replaced: its old ranges if of another list, and the new ones. */
  lemma ReplacedGroup(before: seq<Range>, name: string, rs: seq<Range>, k: Key)
    requires AllClean(before)
    ensures Group(Others(before, name) + Relabel(rs, name), k) ==
      (if k.list == name then [] else OfKey(before, k)) + Group(Relabel(rs, name), k)
  {
    hide Group, OfKey, Others, Relabel, AllClean, Clean, IsClean, Usable;
    GroupAppend(Others(before, name), Relabel(rs, name), k);
    OthersClean(before, name);
    assert Group(Others(before, name), k) == OfKey(Others(before, name), k) by { CleanGroup(Others(before, name), k); }
    OthersOfKey(before, name, k);
  }

  lemma CleanGroup(s: seq<Range>, k: Key)
    requires AllClean(s)
    ensures Group(s, k) == OfKey(s, k)
  {
    hide Clean, IsClean, Usable;
    GroupOfTidy(s, k);
  }

  lemma RelabelledOther(rs: seq<Range>, name: string, k: Key)
    requires Cidr.GoTrim(name) == name && k.list != name
    ensures Group(Relabel(rs, name), k) == []
  {
    KeepNone(InGroup(k), MapSeq(Clean, Relabel(rs, name)));
  }

  lemma TrimTwice(name: string)
    ensures Cidr.GoTrim(Cidr.GoTrim(name)) == Cidr.GoTrim(name)
  {
  }

  lemma StepAgrees(before: seq<Range>, op: Op, after: seq<Range>, s: set<Triple>, k: Key, ip: nat)
    requires AllClean(before) && Agrees(before, s) && Step(before, op, after)
    ensures Covers(OfKey(after, k), ip) <==> PlainCovers(PlainStep(s, op), k, ip)
  {
    hide Group, OfKey, Others, Relabel, AllClean, Clean, IsClean, Usable, TriplesOf, Covers, PlainCovers, WithoutList, Normalized, Cidr.GoTrim;
    assert Covers(OfKey(before, k), ip) <==> PlainCovers(s, k, ip);
    NothingCovered(ip);
    match op
    case ReplaceAllOp(rs) =>
      NormalizeCovers(rs, after, k, ip);
      GroupCovers(rs, k, ip);
    case ReplaceListOp(listName, rs) =>
      var name := Cidr.GoTrim(listName);
      NormalizeCovers(Others(before, name) + Relabel(rs, name), after, k, ip);
      ReplacedGroup(before, name, rs, k);
      CoversAppend(if k.list == name then [] else OfKey(before, k), Group(Relabel(rs, name), k), ip);
      GroupCovers(Relabel(rs, name), k, ip);
      WithoutCovers(s, name, k, ip);
      TrimTwice(listName);
      RelabelledTriples(name, rs);
      UnionCovers(WithoutList(s, name), TriplesOf(Relabel(rs, name)), k, ip);
    case DeleteListOp(listName) =>
      OthersOfKey(before, Cidr.GoTrim(listName), k);
      WithoutCovers(s, Cidr.GoTrim(listName), k, ip);
  }

  lemma NothingCovered(ip: nat)
    ensures !Covers([], ip)
  {
  }

  /** Deleting a list keeps the rest tidy. */
  lemma DeleteTidy(before: seq<Range>, name: string)
    requires Tidy(before)
    ensures Tidy(Others(before, name))
  {
    hide OfKey, Clean, IsClean, Usable, OutLess, Settled;
    KeptIsSorted(before, name);
    assert AllClean(before);
    OthersClean(before, name);
    forall k: Key
      ensures TidyKey(Others(before, name), k)
    {
      OthersOfKey(before, name, k);
      if k.list == name {
        EmptySettled();
        assert SettledAs(Others(before, name), k, []);
      } else {
        assert TidyKey(before, k);
        var m :| SettledAs(before, k, m);
        assert SettledAs(Others(before, name), k, m);
      }
    }
  }

  lemma EmptySettled()
    ensures Settled([])
  {
  }

  lemma StepTidy(before: seq<Range>, op: Op, after: seq<Range>)
    requires Tidy(before) && Step(before, op, after)
    ensures Tidy(after)
  {
    hide Tidy, Normalized;
    match op
    case ReplaceAllOp(rs) => NormalizedIsTidy(rs, after);
    case ReplaceListOp(name, rs) =>
      NormalizedIsTidy(Others(before, Cidr.GoTrim(name)) + Relabel(rs, Cidr.GoTrim(name)), after);
    case DeleteListOp(name) => DeleteTidy(before, Cidr.GoTrim(name));
  }

  lemma EmptyIndex()
    ensures Tidy([]) && Agrees([], {})
  {
    forall k: Key
      ensures TidyKey([], k)
    {
      assert SettledAs([], k, []);
    }
  }

  lemma TidyIsClean(s: seq<Range>)
    requires Tidy(s)
    ensures AllClean(s)
  {
  }

  /** After any run the index is tidy and covers exactly what the plain set covers. */
  lemma {:induction false} RunAgrees(states: seq<seq<Range>>, ops: seq<Op>)
    requires IsRun(states, ops)
    ensures Tidy(states[|ops|]) && Agrees(states[|ops|], PlainRun(ops))
    decreases |ops|
  {
    hide Tidy, Agrees, Step, AllClean, PlainStep;
    if ops == [] {
      EmptyIndex();
    } else {
      var n := |ops| - 1;
      RunAgrees(states[..|ops|], ops[..n]);
      assert Step(states[n], ops[n], states[n + 1]);
      TidyIsClean(states[n]);
      StepTidy(states[n], ops[n], states[n + 1]);
      StepAgreesAll(states[n], ops[n], states[n + 1], PlainRun(ops[..n]));
    }
  }

  lemma StepAgreesAll(before: seq<Range>, op: Op, after: seq<Range>, s: set<Triple>)
    requires AllClean(before) && Agrees(before, s) && Step(before, op, after)
    ensures Agrees(after, PlainStep(s, op))
  {
    hide OfKey, Covers, PlainCovers, PlainStep, Step, AllClean;
    forall k: Key, ip: nat
      ensures Covers(OfKey(after, k), ip) <==> PlainCovers(PlainStep(s, op), k, ip)
    {
      StepAgrees(before, op, after, s, k, ip);
    }
  }

  // ---- lookups after a run ----

  /** Every covering (list, category) pair has a hit, and every hit is such a pair. */
  ghost predicate Complete(s: set<Triple>, ip: U32, hits: seq<Hit>) {
    forall k: Key :: PlainCovers(s, k, ip) <==> exists i :: 0 <= i < |hits| && hits[i].list == k.list && hits[i].cat == k.cat
  }

  /** No two covering pairs are joined to the same text. */
  ghost predicate Unambiguous(s: set<Triple>, ip: U32) {
    forall k: Key, l: Key :: PlainCovers(s, k, ip) && PlainCovers(s, l, ip) && JoinKey(k.list, k.cat) == JoinKey(l.list, l.cat) ==> k == l
  }

  lemma CoveringOfKey(s: seq<Range>, ip: U32, k: Key)
    ensures Covers(OfKey(s, k), ip) <==> exists i :: 0 <= i < |s| && Covering(s[i], ip) && KeyOf(s[i]) == k
  {
    if Covers(OfKey(s, k), ip) {
      var i :| 0 <= i < |OfKey(s, k)| && OfKey(s, k)[i].start <= ip <= OfKey(s, k)[i].end;
      assert OfKey(s, k)[i] in s;
    }
    if i :| 0 <= i < |s| && Covering(s[i], ip) && KeyOf(s[i]) == k {
      KeepHas(HasKey(k), s, i);
      var j :| 0 <= j < |OfKey(s, k)| && OfKey(s, k)[j] == s[i];
    }
  }

  lemma RangeOfHit(s: seq<Range>, ip: U32, hits: seq<Hit>, i: nat) returns (j: nat)
    requires Answers(s, ip, hits) && i < |hits|
    ensures j < |s| && Covering(s[j], ip) && KeyOf(s[j]) == Key(hits[i].list, hits[i].cat) && hits[i] == HitOf(s[j])
  {
    hide HitLess, SortedBy, Cidr.FormatNetworkPreferCidr;
    assert BestHit(s, ip, HitKey(hits[i]), hits[i]);
    j :| Best(s, ip, HitKey(hits[i]), j) && hits[i] == HitOf(s[j]);
  }

  lemma HitIsCovered(states: seq<seq<Range>>, ops: seq<Op>, ip: U32, hits: seq<Hit>, i: nat)
    requires IsRun(states, ops) && Answers(states[|ops|], ip, hits) && i < |hits|
    ensures PlainCovers(PlainRun(ops), Key(hits[i].list, hits[i].cat), ip)
  {
    hide OfKey, Covers, PlainCovers, PlainRun, HitLess, SortedBy, Tidy, Answers, Step;
    RunAgrees(states, ops);
    var j := RangeOfHit(states[|ops|], ip, hits, i);
    CoveringOfKey(states[|ops|], ip, Key(hits[i].list, hits[i].cat));
  }

  /**
   * The hit shows a range around the address all of which the plain set covers for the
   * hit's pair, printed as a CIDR block if it is one, and it reads as that range.
   */
  ghost predicate NetworkWithin(s: set<Triple>, ip: U32, h: Hit) {
    exists lo: U32, hi: U32 :: lo <= ip <= hi && ShowsRange(h, lo, hi) &&
      forall x: U32 :: lo <= x <= hi ==> PlainCovers(s, Key(h.list, h.cat), x)
  }

  ghost predicate ShowsRange(h: Hit, lo: U32, hi: U32) {
    NetworkText.PrintedAs(h.network, lo, hi) && forall v6 :: Cidr.ParseNetworkField(v6, h.network) == Some((lo, hi))
  }

  lemma HitNetwork(states: seq<seq<Range>>, ops: seq<Op>, ip: U32, hits: seq<Hit>, i: nat)
    requires IsRun(states, ops) && Answers(states[|ops|], ip, hits) && i < |hits|
    ensures NetworkWithin(PlainRun(ops), ip, hits[i])
  {
    hide OfKey, Covers, PlainCovers, PlainRun, HitLess, SortedBy, Tidy, Answers, Step, Cidr.ParseNetworkField, Cidr.FormatNetworkPreferCidr;
    var s := states[|ops|];
    RunAgrees(states, ops);
    var j := RangeOfHit(s, ip, hits, i);
    forall v6
      ensures Cidr.ParseNetworkField(v6, hits[i].network) == Some((s[j].start, s[j].end))
    {
      Cidr.NetworkRoundTrip(v6, s[j].start, s[j].end);
    }
    NetworkText.PrintedExactly(s[j].start, s[j].end);
    assert ShowsRange(hits[i], s[j].start, s[j].end);
    hide ShowsRange;
    forall x: U32 | s[j].start <= x <= s[j].end
      ensures PlainCovers(PlainRun(ops), KeyOf(s[j]), x)
    {
      CoveringOfKey(s, x, KeyOf(s[j]));
    }
  }

  lemma CoveredIsHit(states: seq<seq<Range>>, ops: seq<Op>, ip: U32, hits: seq<Hit>, k: Key) returns (i: nat)
    requires IsRun(states, ops) && Answers(states[|ops|], ip, hits) && PlainCovers(PlainRun(ops), k, ip)
    ensures i < |hits| && HitKey(hits[i]) == JoinKey(k.list, k.cat)
  {
    hide OfKey, Covers, PlainCovers, PlainRun, HitLess, SortedBy, Tidy, JoinKey;
    var s := states[|ops|];
    RunAgrees(states, ops);
    CoveringOfKey(s, ip, k);
    var j :| 0 <= j < |s| && Covering(s[j], ip) && KeyOf(s[j]) == k;
    assert RangeKey(s[j]) == JoinKey(k.list, k.cat);
    assert HasCovering(s, ip, JoinKey(k.list, k.cat));
    i :| 0 <= i < |hits| && HitKey(hits[i]) == JoinKey(k.list, k.cat);
  }

  /**
   * After any run, a lookup answers one hit for every list and category whose plain
   * set covers the address, and no other, exactly when no two such pairs are joined
   * to the same text. The hits are always sorted by category, then list, and each shows
   * a network around the address that its pair covers.
   */
  lemma LookupAgreesWithPlainSet(states: seq<seq<Range>>, ops: seq<Op>, ip: U32, hits: seq<Hit>)
    requires IsRun(states, ops) && Answers(states[|ops|], ip, hits)
    ensures SortedBy(HitLess, hits)
    ensures forall i, j :: 0 <= i < j < |hits| ==> (hits[i].list, hits[i].cat) != (hits[j].list, hits[j].cat)
    ensures forall i :: 0 <= i < |hits| ==> NetworkWithin(PlainRun(ops), ip, hits[i])
    ensures Complete(PlainRun(ops), ip, hits) <==> Unambiguous(PlainRun(ops), ip)
  {
    hide PlainCovers, PlainRun, HitLess, Answers, JoinKey, NetworkWithin;
    AnswersAreDistinct(states[|ops|], ip, hits);
    forall i | 0 <= i < |hits|
      ensures PlainCovers(PlainRun(ops), Key(hits[i].list, hits[i].cat), ip)
      ensures NetworkWithin(PlainRun(ops), ip, hits[i])
    {
      HitIsCovered(states, ops, ip, hits, i);
      HitNetwork(states, ops, ip, hits, i);
    }
    if Unambiguous(PlainRun(ops), ip) {
      forall k: Key | PlainCovers(PlainRun(ops), k, ip)
        ensures exists i :: 0 <= i < |hits| && hits[i].list == k.list && hits[i].cat == k.cat
      {
        var i := CoveredIsHit(states, ops, ip, hits, k);
        assert Key(hits[i].list, hits[i].cat) == k;
      }
    }
    if Complete(PlainRun(ops), ip, hits) {
      forall k: Key, l: Key | PlainCovers(PlainRun(ops), k, ip) && PlainCovers(PlainRun(ops), l, ip) && JoinKey(k.list, k.cat) == JoinKey(l.list, l.cat)
        ensures k == l
      {
        var i :| 0 <= i < |hits| && hits[i].list == k.list && hits[i].cat == k.cat;
        var j :| 0 <= j < |hits| && hits[j].list == l.list && hits[j].cat == l.cat;
        assert HitKey(hits[i]) == HitKey(hits[j]);
        assert i == j;
      }
    }
  }

  lemma AnswersAreDistinct(s: seq<Range>, ip: U32, hits: seq<Hit>)
    requires Answers(s, ip, hits)
    ensures SortedBy(HitLess, hits)
    ensures forall i, j :: 0 <= i < j < |hits| ==> HitKey(hits[i]) != HitKey(hits[j])
  {
  }

  /** List names without NUL characters are never ambiguous. */
  lemma NulFreeIsUnambiguous(s: set<Triple>, ip: U32)
    requires forall t :: t in s ==> '\U{0}' !in t.list
    ensures Unambiguous(s, ip)
  {
    forall k: Key, l: Key | PlainCovers(s, k, ip) && PlainCovers(s, l, ip) && JoinKey(k.list, k.cat) == JoinKey(l.list, l.cat)
      ensures k == l
    {
      JoinIsInjective(k, l);
    }
  }

  lemma JoinIsInjective(k: Key, l: Key)
    requires '\U{0}' !in k.list && '\U{0}' !in l.list && JoinKey(k.list, k.cat) == JoinKey(l.list, l.cat)
    ensures k == l
  {
    var a, b := JoinKey(k.list, k.cat), JoinKey(l.list, l.cat);
    assert a[|k.list|] == '\U{0}' && b[|l.list|] == '\U{0}';
    assert forall i :: 0 <= i < |k.list| ==> a[i] == k.list[i] && a[i] != '\U{0}';
    assert forall i :: 0 <= i < |l.list| ==> b[i] == l.list[i] && b[i] != '\U{0}';
    assert k.list == a[..|k.list|] && l.list == b[..|l.list|];
    assert k.cat == a[|k.list| + 1..] && l.cat == b[|l.list| + 1..];
  }

  /** With a NUL in a list name two pairs can be joined to the same text. */
  lemma NulJoins(a: string, b: string, c: string)
    ensures JoinKey(a, b + "\U{0}" + c) == JoinKey(a + "\U{0}" + b, c)
  {
  }

  /** 8.8.8.8 */
  const PROBE: U32 := 0x0808_0808

  const FIRST_NUL := Range("a", "b\U{0}c", PROBE, PROBE, "", 0)
  const SECOND_NUL := Range("a\U{0}b", "c", PROBE, PROBE, "", 0)

  lemma TriplesOfTwo(a: Range, b: Range)
    requires Clean(a) == a && Clean(b) == b && Usable(a) && Usable(b)
    ensures TriplesOf([a, b]) == {TripleOf(a), TripleOf(b)}
  {
    hide Clean;
    var rs := [a, b];
    TriplesAreCleaned(rs);
    hide TriplesOf;
    assert Usable(Clean(rs[0])) && Usable(Clean(rs[1]));
    assert TripleOf(Clean(rs[0])) in TriplesOf(rs) && TripleOf(Clean(rs[1])) in TriplesOf(rs);
  }

  lemma NulRangesAreClean()
    ensures Clean(FIRST_NUL) == FIRST_NUL && Clean(SECOND_NUL) == SECOND_NUL
  {
    hide Clean, Text.Trim;
    CleanIsClean(FIRST_NUL);
    CleanIsClean(SECOND_NUL);
  }

  lemma NulRangesJoin()
    ensures RangeKey(FIRST_NUL) == RangeKey(SECOND_NUL) && KeyOf(FIRST_NUL) != KeyOf(SECOND_NUL)
  {
    NulJoins("a", "b", "c");
    assert "b" + "\U{0}" + "c" == "b\U{0}c" && "a" + "\U{0}" + "b" == "a\U{0}b";
    assert |"a"| != |"a\U{0}b"|;
  }

  /** What two triples of one address cover there. */
  lemma TwoCover(a: Range, b: Range, ip: U32)
    requires a.start == a.end == b.start == b.end == ip
    ensures var s := {TripleOf(a), TripleOf(b)};
      PlainCovers(s, KeyOf(a), ip) && PlainCovers(s, KeyOf(b), ip) &&
      forall k: Key :: PlainCovers(s, k, ip) ==> k == KeyOf(a) || k == KeyOf(b)
  {
    var s := {TripleOf(a), TripleOf(b)};
    assert TripleOf(a) in s && TripleOf(b) in s;
  }

  /**
   * Two usable ranges of one address whose pairs have one joined text: any lookup answers
   * one hit for both.
   */
  lemma NulIsAmbiguous(states: seq<seq<Range>>, hits: seq<Hit>)
    requires IsRun(states, [ReplaceAllOp([FIRST_NUL, SECOND_NUL])]) && Answers(states[1], PROBE, hits)
    ensures PlainCovers(PlainRun([ReplaceAllOp([FIRST_NUL, SECOND_NUL])]), KeyOf(FIRST_NUL), PROBE)
    ensures PlainCovers(PlainRun([ReplaceAllOp([FIRST_NUL, SECOND_NUL])]), KeyOf(SECOND_NUL), PROBE)
    ensures |hits| == 1 && !Complete(PlainRun([ReplaceAllOp([FIRST_NUL, SECOND_NUL])]), PROBE, hits)
  {
    hide Clean, Answers, Complete, JoinKey, TripleOf, PlainRun, PlainCovers, Step;
    NulRangesAreClean();
    NulRangesJoin();
    JoinedCover(FIRST_NUL, SECOND_NUL, PROBE);
    JoinedHits(states, [ReplaceAllOp([FIRST_NUL, SECOND_NUL])], PROBE, hits, KeyOf(FIRST_NUL), KeyOf(SECOND_NUL));
  }

  lemma TwoSame(hits: seq<Hit>, key: string)
    requires |hits| > 1 && forall j :: 0 <= j < |hits| ==> HitKey(hits[j]) == key
    ensures exists i, j :: 0 <= i < j < |hits| && HitKey(hits[i]) == HitKey(hits[j])
  {
    assert HitKey(hits[0]) == HitKey(hits[1]);
  }

  lemma RunOfOne(rs: seq<Range>)
    ensures PlainRun([ReplaceAllOp(rs)]) == TriplesOf(rs)
  {
  }

  /** When all covering pairs have one joined text, a lookup has at most one hit. */
  lemma OneTextOneHit(states: seq<seq<Range>>, ops: seq<Op>, ip: U32, hits: seq<Hit>, key: string)
    requires IsRun(states, ops) && Answers(states[|ops|], ip, hits)
    requires forall k: Key :: PlainCovers(PlainRun(ops), k, ip) ==> JoinKey(k.list, k.cat) == key
    ensures |hits| <= 1
  {
    AnswersAreDistinct(states[|ops|], ip, hits);
    hide PlainCovers, PlainRun, Answers, IsRun, JoinKey;
    forall j | 0 <= j < |hits|
      ensures HitKey(hits[j]) == key
    {
      HitIsCovered(states, ops, ip, hits, j);
    }
    if |hits| > 1 {
      TwoSame(hits, key);
    }
  }

  lemma JoinedCover(a: Range, b: Range, ip: U32)
    requires Clean(a) == a && Clean(b) == b && Usable(a) && Usable(b)
    requires a.start == a.end == b.start == b.end == ip && RangeKey(a) == RangeKey(b)
    ensures var s := PlainRun([ReplaceAllOp([a, b])]);
      PlainCovers(s, KeyOf(a), ip) && PlainCovers(s, KeyOf(b), ip) &&
      forall k: Key :: PlainCovers(s, k, ip) ==> JoinKey(k.list, k.cat) == RangeKey(a)
  {
    hide Clean, TriplesOf, PlainCovers, JoinKey, TripleOf, PlainRun;
    RunOfOne([a, b]);
    TriplesOfTwo(a, b);
    TwoCover(a, b, ip);
  }

  lemma JoinedHits(states: seq<seq<Range>>, ops: seq<Op>, ip: U32, hits: seq<Hit>, k: Key, l: Key)
    requires IsRun(states, ops) && Answers(states[|ops|], ip, hits) && k != l
    requires PlainCovers(PlainRun(ops), k, ip) && PlainCovers(PlainRun(ops), l, ip)
    requires forall m: Key :: PlainCovers(PlainRun(ops), m, ip) ==> JoinKey(m.list, m.cat) == JoinKey(k.list, k.cat)
    ensures |hits| == 1 && !Complete(PlainRun(ops), ip, hits)
  {
    hide PlainCovers, Answers, IsRun, Complete, JoinKey, PlainRun;
    var i := CoveredIsHit(states, ops, ip, hits, k);
    OneTextOneHit(states, ops, ip, hits, JoinKey(k.list, k.cat));
    OneHitMisses(PlainRun(ops), ip, hits, k, l);
  }

  lemma OneHitMisses(s: set<Triple>, ip: U32, hits: seq<Hit>, k: Key, l: Key)
    requires |hits| == 1 && k != l && PlainCovers(s, k, ip) && PlainCovers(s, l, ip)
    ensures !Complete(s, ip, hits)
  {
    hide PlainCovers;
    var h := Key(hits[0].list, hits[0].cat);
    var missed := if h == k then l else k;
    assert PlainCovers(s, missed, ip);
    assert forall i :: 0 <= i < |hits| ==> Key(hits[i].list, hits[i].cat) != missed;
  }

  /** Replacing or deleting one list leaves the ranges of every other list as they were. */
  lemma OtherListsUndisturbed(states: seq<seq<Range>>, ops: seq<Op>, op: Op, after: seq<Range>, k: Key)
    requires IsRun(states, ops) && Step(states[|ops|], op, after)
    requires op.ReplaceListOp? || op.DeleteListOp?
    requires k.list != Cidr.GoTrim(op.name)
    ensures multiset(OfKey(after, k)) == multiset(OfKey(states[|ops|], k))
  {
    hide Group, OfKey, Others, Relabel, AllClean, Clean, IsClean, Usable, Normalized, Agrees, Cidr.GoTrim;
    var before := states[|ops|];
    RunAgrees(states, ops);
    TidyIsClean(before);
    var name := Cidr.GoTrim(op.name);
    match op
    case ReplaceListOp(_, rs) =>
      ReplacedGroup(before, name, rs, k);
      TrimTwice(op.name);
      RelabelledOther(rs, name, k);
      assert OfKey(before, k) + [] == OfKey(before, k);
      TidyKeyStays(Others(before, name) + Relabel(rs, name), before, after, k);
    case DeleteListOp(_) => OthersOfKey(before, name, k);
  }
}
