/** Reputation ranges: per-list merging of overlapping and touching address ranges. */
module ReputationNormalize {
  import opened Common
  import opened Lists
  import Cidr
  import Text

  datatype Range = Range(list: string, cat: string, start: U32, end: U32, source: string, updated: int)

  datatype Key = Key(list: string, cat: string)

  function KeyOf(r: Range): Key {
    Key(r.list, r.cat)
  }

  /** Names are trimmed before anything else. */
  function Clean(r: Range): Range {
    r.(list := Cidr.GoTrim(r.list), cat := Cidr.GoTrim(r.cat))
  }

  /** Neither name has white space at an end, so that cleaning changes nothing. */
  predicate IsClean(r: Range) {
    Text.Trimmed(Text.GoSpace, r.list) && Text.Trimmed(Text.GoSpace, r.cat)
  }

  lemma CleanIsClean(r: Range)
    ensures IsClean(Clean(r))
    ensures IsClean(r) ==> Clean(r) == r
  {
    hide Text.Trim, Text.GoSpace;
  }

  /** What normalization keeps of a cleaned range. */
  predicate Usable(r: Range) {
    r.list != "" && r.start <= r.end
  }

  function InGroup(k: Key): Range -> bool {
    (r: Range) => Usable(r) && KeyOf(r) == k
  }

  /** The cleaned ranges of one list and category, in input order. */
  function Group(ranges: seq<Range>, k: Key): seq<Range> {
    Keep(InGroup(k), MapSeq(Clean, ranges))
  }

  function HasKey(k: Key): Range -> bool {
    (r: Range) => KeyOf(r) == k
  }

  function OfKey(ranges: seq<Range>, k: Key): seq<Range> {
    Keep(HasKey(k), ranges)
  }

  predicate StartLess(a: Range, b: Range) {
    a.start < b.start || (a.start == b.start && a.end < b.end)
  }

  predicate OutLess(a: Range, b: Range) {
    if a.start != b.start then a.start < b.start
    else if a.end != b.end then a.end < b.end
    else if a.list != b.list then TextLess(a.list, b.list)
    else TextLess(a.cat, b.cat)
  }

  // ---- merging one group ----

  /** Overlap or contact, with the successor of cur's end computed on 32 bits. */
  predicate Touches(cur: Range, n: Range) {
    n.start <= Wrap32(cur.end + 1)
  }

  function Absorb(cur: Range, n: Range): Range {
    cur.(end := if n.end > cur.end then n.end else cur.end,
         updated := if n.updated > cur.updated then n.updated else cur.updated,
         source := if cur.source == "" then n.source else cur.source)
  }

  function Merge(cur: Range, g: seq<Range>): (r: seq<Range>)
    ensures r != [] && r[0].start == cur.start
    decreases |g|
  {
    if g == [] then [cur]
    else if Touches(cur, g[0]) then Merge(Absorb(cur, g[0]), g[1..])
    else [cur] + Merge(g[0], g[1..])
  }

  function MergeGroup(g: seq<Range>): seq<Range> {
    if g == [] then [] else Merge(g[0], g[1..])
  }

  /** The merging loop over a sorted group. */
  method MergeSorted(g: seq<Range>) returns (out: seq<Range>)
    ensures out == MergeGroup(g)
  {
    if g == [] {
      return [];
    }
    var cur := g[0];
    out := [];
    var i := 1;
    while i < |g|
      invariant 1 <= i <= |g|
      invariant MergeGroup(g) == out + Merge(cur, g[i..])
    {
      assert g[i..][0] == g[i] && g[i..][1..] == g[i + 1..];
      if Touches(cur, g[i]) {
        cur := Absorb(cur, g[i]);
      } else {
        out := out + [cur];
        cur := g[i];
      }
      i := i + 1;
    }
    assert g[i..] == [];
    out := out + [cur];
  }

  // ---- the whole normalization ----

  /**
   * What normalizing promises: sorted output, and per key the merge of some sorted
   * copy of that key's group. Groups come in any order, equal elements too.
   */
  ghost predicate Normalized(ranges: seq<Range>, out: seq<Range>) {
    SortedBy(OutLess, out) && forall k: Key :: KeyMerged(ranges, k, out)
  }

  ghost predicate KeyMerged(ranges: seq<Range>, k: Key, out: seq<Range>) {
    exists g :: MergedAs(ranges, k, g, out)
  }

  ghost predicate MergedAs(ranges: seq<Range>, k: Key, g: seq<Range>, out: seq<Range>) {
    SortedCopy(StartLess, Group(ranges, k), g) && multiset(OfKey(out, k)) == multiset(MergeGroup(g))
  }

  lemma StartLessIsWeakOrder()
    ensures WeakOrder(StartLess)
  {
  }

  lemma OutLessIsWeakOrder()
    ensures WeakOrder(OutLess)
  {
    forall a, b | OutLess(a, b)
      ensures !OutLess(b, a)
    {
      TextLessAsym(a.list, b.list);
      TextLessAsym(a.cat, b.cat);
    }
    forall a, b, c | !OutLess(b, a) && !OutLess(c, b)
      ensures !OutLess(c, a)
    {
      OutLessTrans(a, b, c);
    }
  }

  lemma OutLessTrans(a: Range, b: Range, c: Range)
    requires !OutLess(b, a) && !OutLess(c, b)
    ensures !OutLess(c, a)
  {
    if a.start == b.start == c.start && a.end == b.end == c.end {
      TextLessAsym(a.list, b.list);
      TextLessAsym(b.list, c.list);
      TextLessAsym(a.list, c.list);
      if a.list == b.list == c.list {
        TextLessTrans(a.cat, b.cat, c.cat);
      } else if !TextLess(b.list, a.list) && !TextLess(c.list, b.list) {
        TextLessTrans(a.list, b.list, c.list);
        if a.list == c.list {
          TextLessAsym(a.list, b.list);
        }
      }
    }
  }

  lemma MergeKeepsKey(cur: Range, g: seq<Range>, k: Key)
    requires KeyOf(cur) == k && forall i :: 0 <= i < |g| ==> KeyOf(g[i]) == k
    ensures forall i :: 0 <= i < |Merge(cur, g)| ==> KeyOf(Merge(cur, g)[i]) == k
    decreases |g|
  {
    if g != [] {
      if Touches(cur, g[0]) {
        MergeKeepsKey(Absorb(cur, g[0]), g[1..], k);
      } else {
        MergeKeepsKey(g[0], g[1..], k);
      }
    }
  }

  lemma {:induction false} KeepAll<A>(p: A -> bool, s: seq<A>)
    requires forall i :: 0 <= i < |s| ==> p(s[i])
    ensures Keep(p, s) == s
  {
    if s != [] {
      KeepAll(p, s[1..]);
    }
  }

  lemma {:induction false} KeepNone<A>(p: A -> bool, s: seq<A>)
    requires forall i :: 0 <= i < |s| ==> !p(s[i])
    ensures Keep(p, s) == []
  {
    if s != [] {
      KeepNone(p, s[1..]);
    }
  }

  /** Every element of a sorted copy of a group is usable and has the group's key. */
  lemma GroupElements(ranges: seq<Range>, k: Key, g: seq<Range>)
    requires multiset(g) == multiset(Group(ranges, k))
    ensures forall i :: 0 <= i < |g| ==> Usable(g[i]) && KeyOf(g[i]) == k
  {
    forall i | 0 <= i < |g|
      ensures Usable(g[i]) && KeyOf(g[i]) == k
    {
      SameElements(g, Group(ranges, k), i);
    }
  }

  lemma MergeOfKey(ranges: seq<Range>, k: Key, g: seq<Range>, other: Key)
    requires multiset(g) == multiset(Group(ranges, k))
    ensures OfKey(MergeGroup(g), other) == if other == k then MergeGroup(g) else []
  {
    GroupElements(ranges, k, g);
    if g != [] {
      MergeKeepsKey(g[0], g[1..], k);
    }
    if other == k {
      KeepAll(HasKey(k), MergeGroup(g));
    } else {
      KeepNone(HasKey(other), MergeGroup(g));
    }
  }

  lemma GroupStep(ranges: seq<Range>, i: nat, k: Key)
    requires i < |ranges|
    ensures Group(ranges[..i + 1], k) == Group(ranges[..i], k) + (if InGroup(k)(Clean(ranges[i])) then [Clean(ranges[i])] else [])
  {
    hide Clean, Usable;
    var r := Clean(ranges[i]);
    var before := MapSeq(Clean, ranges[..i]);
    assert MapSeq(Clean, ranges[..i + 1]) == before + [r];
    KeepAppend(InGroup(k), before, [r]);
    KeepOne(InGroup(k), r);
  }

  lemma KeepOne<A>(p: A -> bool, a: A)
    ensures Keep(p, [a]) == if p(a) then [a] else []
  {
    assert [a][1..] == [];
  }

  ghost predicate GroupsOf(ranges: seq<Range>, groups: map<Key, seq<Range>>) {
    forall k :: Group(ranges, k) == if k in groups then groups[k] else []
  }

  /** The first loop: ranges distributed over their keys. */
  method GroupAll(ranges: seq<Range>) returns (groups: map<Key, seq<Range>>)
    ensures GroupsOf(ranges, groups)
  {
    hide Group, Clean, Usable;
    groups := map[];
    var i := 0;
    forall k: Key
      ensures Group(ranges[..0], k) == []
    {
      NoGroup(k);
    }
    while i < |ranges|
      invariant i <= |ranges|
      invariant GroupsOf(ranges[..i], groups)
    {
      var r := Clean(ranges[i]);
      ghost var before := groups;
      if Usable(r) {
        var key := KeyOf(r);
        groups := groups[key := (if key in groups then groups[key] else []) + [r]];
      }
      forall k: Key
        ensures Group(ranges[..i + 1], k) == if k in groups then groups[k] else []
      {
        GroupStep(ranges, i, k);
        assert Group(ranges[..i], k) == if k in before then before[k] else [];
      }
      i := i + 1;
    }
    assert ranges[..i] == ranges;
  }

  lemma NoGroup(k: Key)
    ensures Group([], k) == []
  {
    assert MapSeq(Clean, []) == [];
  }

  /** Appending one key's merged group leaves the other keys as they were. */
  lemma AppendMerged(ranges: seq<Range>, key: Key, g: seq<Range>, out: seq<Range>, k: Key)
    requires SortedCopy(StartLess, Group(ranges, key), g)
    requires OfKey(out, key) == []
    ensures k == key ==> KeyMerged(ranges, k, out + MergeGroup(g))
    ensures k != key ==> OfKey(out + MergeGroup(g), k) == OfKey(out, k)
    ensures k != key && KeyMerged(ranges, k, out) ==> KeyMerged(ranges, k, out + MergeGroup(g))
  {
    hide Group, MergeGroup, SortedCopy;
    var merged := MergeGroup(g);
    KeepAppend(HasKey(k), out, merged);
    assert multiset(g) == multiset(Group(ranges, key)) by { CopyIsPermutation(ranges, key, g); }
    MergeOfKey(ranges, key, g, k);
    if k == key {
      assert OfKey(out + merged, k) == [] + merged == merged;
      assert MergedAs(ranges, k, g, out + merged);
    } else {
      assert OfKey(out + merged, k) == OfKey(out, k) + [] == OfKey(out, k);
      if KeyMerged(ranges, k, out) {
        var h :| MergedAs(ranges, k, h, out);
        assert MergedAs(ranges, k, h, out + merged);
      }
    }
  }

  lemma CopyIsPermutation(ranges: seq<Range>, k: Key, g: seq<Range>)
    requires SortedCopy(StartLess, Group(ranges, k), g)
    ensures multiset(g) == multiset(Group(ranges, k))
  {
  }

  lemma EmptyGroupMerged(ranges: seq<Range>, k: Key, out: seq<Range>)
    requires Group(ranges, k) == [] && OfKey(out, k) == []
    ensures KeyMerged(ranges, k, out)
  {
    assert MergedAs(ranges, k, [], out);
  }

  /** The second loop, over the groups in any order: sort each one, merge it, append it. */
  method MergeAll(ranges: seq<Range>, groups: map<Key, seq<Range>>) returns (out: seq<Range>)
    requires GroupsOf(ranges, groups)
    ensures forall k: Key :: KeyMerged(ranges, k, out)
  {
    hide Group, OfKey, MergeGroup, KeyMerged;
    out := [];
    var todo := groups.Keys;
    forall k: Key
      ensures OfKey(out, k) == []
      ensures k !in todo ==> KeyMerged(ranges, k, out)
    {
      KeepNone(HasKey(k), out);
      NoRanges(k);
      if k !in todo {
        EmptyGroupMerged(ranges, k, out);
      }
    }
    while todo != {}
      invariant todo <= groups.Keys
      invariant forall k: Key :: k in todo ==> OfKey(out, k) == []
      invariant forall k: Key :: k !in todo ==> KeyMerged(ranges, k, out)
      decreases todo
    {
      var key :| key in todo;
      StartLessIsWeakOrder();
      var g := SortSlice(groups[key], StartLess);
      var merged := MergeSorted(g);
      forall k: Key
        ensures k == key ==> KeyMerged(ranges, k, out + merged)
        ensures k != key ==> OfKey(out + merged, k) == OfKey(out, k)
        ensures k != key && KeyMerged(ranges, k, out) ==> KeyMerged(ranges, k, out + merged)
      {
        AppendMerged(ranges, key, g, out, k);
      }
      out := out + merged;
      todo := todo - {key};
    }
  }

  lemma NoRanges(k: Key)
    ensures OfKey([], k) == []
  {
  }

  lemma PermutationMerged(ranges: seq<Range>, k: Key, merged: seq<Range>, out: seq<Range>)
    requires KeyMerged(ranges, k, merged) && multiset(out) == multiset(merged)
    ensures KeyMerged(ranges, k, out)
  {
    hide Group, MergeGroup, SortedCopy;
    KeepPerm(HasKey(k), out, merged);
    var g :| MergedAs(ranges, k, g, merged);
    assert MergedAs(ranges, k, g, out);
  }

  method NormalizeRanges(ranges: seq<Range>) returns (out: seq<Range>)
    ensures Normalized(ranges, out)
  {
    hide Group, MergeGroup, OfKey, KeyMerged;
    var groups := GroupAll(ranges);
    var merged := MergeAll(ranges, groups);
    OutLessIsWeakOrder();
    out := SortSlice(merged, OutLess);
    forall k: Key
      ensures KeyMerged(ranges, k, out)
    {
      PermutationMerged(ranges, k, merged, out);
    }
  }
}
