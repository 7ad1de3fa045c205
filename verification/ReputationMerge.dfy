/** What a merged range is made of: consecutive ranges of its sorted group, with all they say. */
module ReputationMerge {
  import opened Common
  import opened Lists
  import opened ReputationNormalize

  function Flatten(parts: seq<seq<Range>>): seq<Range> {
    if parts == [] then [] else parts[0] + Flatten(parts[1..])
  }

  /** x is the largest of the values f takes on the part. */
  ghost predicate Largest(part: seq<Range>, f: Range -> int, x: int) {
    (exists k :: 0 <= k < |part| && f(part[k]) == x) && forall k :: 0 <= k < |part| ==> f(part[k]) <= x
  }

  /** The first source that is not empty, or the empty one. */
  ghost predicate FirstSource(part: seq<Range>, source: string) {
    if source == "" then forall k :: 0 <= k < |part| ==> part[k].source == ""
    else exists k :: 0 <= k < |part| && part[k].source == source && forall j :: 0 <= j < k ==> part[j].source == ""
  }

  function End(r: Range): int {
    r.end
  }

  function Updated(r: Range): int {
    r.updated
  }

  /**
   * r stands for the part: it begins where the part begins, ends where the last of its
   * ranges ends, was updated when the latest of them was, and has their first source.
   */
  ghost predicate StandsFor(r: Range, part: seq<Range>) {
    part != [] && r.list == part[0].list && r.cat == part[0].cat && r.start == part[0].start &&
    Largest(part, End, r.end) && Largest(part, Updated, r.updated) && FirstSource(part, r.source)
  }

  /** Each range of the part begins at or before the 32-bit successor of what the ones before it reach. */
  ghost predicate Chained(part: seq<Range>) {
    forall k :: 1 <= k < |part| ==> Reached(part, k)
  }

  ghost predicate Reached(part: seq<Range>, k: nat)
    requires k < |part|
  {
    exists reach: U32 :: Largest(part[..k], End, reach) && part[k].start <= Wrap32(reach + 1)
  }

  /** The parts of a sorted group, one for each merged range; a new one begins where the chain breaks. */
  ghost predicate PartsOf(g: seq<Range>, parts: seq<seq<Range>>, out: seq<Range>) {
    Flatten(parts) == g && |parts| == |out| &&
    (forall i :: 0 <= i < |out| ==> StandsFor(out[i], parts[i]) && Chained(parts[i])) &&
    forall i :: 0 <= i < |out| && i + 1 < |parts| ==> BreaksAfter(out[i], parts[i + 1])
  }

  /** The part begins past the 32-bit successor of r's end. */
  predicate BreaksAfter(r: Range, part: seq<Range>) {
    part != [] && part[0].start > Wrap32(r.end + 1)
  }

  lemma OneRange(r: Range)
    ensures StandsFor(r, [r]) && Chained([r])
  {
    assert [r][0] == r;
    if r.source != "" {
      assert FirstSource([r], r.source);
    }
  }

  lemma LargestMore(part: seq<Range>, f: Range -> int, x: int, n: Range)
    requires Largest(part, f, x)
    ensures Largest(part + [n], f, if f(n) > x then f(n) else x)
  {
    var all := part + [n];
    var k :| 0 <= k < |part| && f(part[k]) == x;
    assert all[k] == part[k] && all[|part|] == n;
    assert forall j :: 0 <= j < |part| ==> all[j] == part[j];
  }

  lemma SourceMore(part: seq<Range>, source: string, n: Range)
    requires FirstSource(part, source)
    ensures FirstSource(part + [n], if source == "" then n.source else source)
  {
    var all := part + [n];
    assert all[|part|] == n && forall j :: 0 <= j < |part| ==> all[j] == part[j];
    if source != "" {
      var k :| 0 <= k < |part| && part[k].source == source && forall j :: 0 <= j < k ==> part[j].source == "";
      assert all[k].source == source;
    }
  }

  lemma AbsorbFields(cur: Range, part: seq<Range>, n: Range)
    requires StandsFor(cur, part)
    ensures StandsFor(Absorb(cur, n), part + [n])
  {
    LargestMore(part, End, cur.end, n);
    LargestMore(part, Updated, cur.updated, n);
    SourceMore(part, cur.source, n);
    hide Largest, FirstSource;
    assert (part + [n])[0] == part[0];
  }

  lemma ChainMore(cur: Range, part: seq<Range>, n: Range)
    requires part != [] && Largest(part, End, cur.end) && Chained(part) && Touches(cur, n)
    ensures Chained(part + [n])
  {
    hide Largest, Wrap32;
    var all := part + [n];
    forall k | 1 <= k < |all|
      ensures Reached(all, k)
    {
      if k < |part| {
        assert all[..k] == part[..k] && all[k] == part[k];
        assert Reached(part, k);
      } else {
        assert all[..k] == part && all[k] == n;
      }
    }
  }

  /** Absorbing the next range of the group makes the part longer. */
  lemma AbsorbStands(cur: Range, part: seq<Range>, n: Range)
    requires StandsFor(cur, part) && Chained(part) && Touches(cur, n)
    ensures StandsFor(Absorb(cur, n), part + [n]) && Chained(part + [n])
  {
    hide Largest, FirstSource, Chained, Touches, Absorb;
    AbsorbFields(cur, part, n);
    ChainMore(cur, part, n);
  }

  /** The parts of a merge that has begun with cur, which stands for part. */
  lemma {:induction false} MergeParts(cur: Range, part: seq<Range>, g: seq<Range>) returns (parts: seq<seq<Range>>)
    requires StandsFor(cur, part) && Chained(part)
    ensures PartsOf(part + g, parts, Merge(cur, g)) && parts != [] && part <= parts[0]
    decreases |g|
  {
    hide StandsFor, Chained, Absorb, Wrap32;
    if g == [] {
      parts := [part];
      assert part + g == part;
      OnePart(cur, part);
      hide PartsOf;
    } else if Touches(cur, g[0]) {
      AbsorbStands(cur, part, g[0]);
      parts := MergeParts(Absorb(cur, g[0]), part + [g[0]], g[1..]);
      assert part + [g[0]] + g[1..] == part + g;
      assert part <= part + [g[0]];
      hide PartsOf;
    } else {
      OneRange(g[0]);
      var rest := MergeParts(g[0], [g[0]], g[1..]);
      parts := [part] + rest;
      NewPart(cur, part, g, rest);
      hide PartsOf;
    }
  }

  lemma OnePart(cur: Range, part: seq<Range>)
    requires StandsFor(cur, part) && Chained(part)
    ensures PartsOf(part, [part], [cur])
  {
    hide StandsFor, Chained;
    assert [part][1..] == [] && Flatten([]) == [] && part + [] == part;
  }

  lemma NewPart(cur: Range, part: seq<Range>, g: seq<Range>, rest: seq<seq<Range>>)
    requires StandsFor(cur, part) && Chained(part) && g != [] && !Touches(cur, g[0])
    requires PartsOf([g[0]] + g[1..], rest, Merge(g[0], g[1..])) && rest != [] && [g[0]] <= rest[0]
    ensures PartsOf(part + g, [part] + rest, [cur] + Merge(g[0], g[1..]))
  {
    hide StandsFor, Chained, PartsOf, Merge, Wrap32;
    assert [g[0]] + g[1..] == g && rest[0][0] == g[0];
    PartsCons(cur, part, g, rest, Merge(g[0], g[1..]));
  }

  /** One more part in front. */
  lemma PartsCons(cur: Range, part: seq<Range>, g: seq<Range>, rest: seq<seq<Range>>, more: seq<Range>)
    requires StandsFor(cur, part) && Chained(part) && PartsOf(g, rest, more)
    requires rest != [] && BreaksAfter(cur, rest[0])
    ensures PartsOf(part + g, [part] + rest, [cur] + more)
  {
    hide StandsFor, Chained, BreaksAfter;
    var parts, out := [part] + rest, [cur] + more;
    assert Flatten(parts) == part + g by {
      hide StandsFor;
      assert parts[1..] == rest;
    }
    hide Flatten;
    forall i | 0 <= i < |out|
      ensures StandsFor(out[i], parts[i]) && Chained(parts[i])
    {
      if i > 0 {
        assert out[i] == more[i - 1] && parts[i] == rest[i - 1];
      }
    }
    forall i | 0 <= i < |out| && i + 1 < |parts|
      ensures BreaksAfter(out[i], parts[i + 1])
    {
      if i > 0 {
        assert out[i] == more[i - 1] && parts[i + 1] == rest[i - 1 + 1];
      }
    }
  }

  /** Start by start, and end by end where starts are equal. */
  ghost predicate ByStart(g: seq<Range>) {
    forall i, j :: 0 <= i < j < |g| ==> g[i].start < g[j].start || (g[i].start == g[j].start && g[i].end <= g[j].end)
  }

  /** The merged ranges of one key, as a list, with the sorted group they were made of and its parts. */
  ghost predicate MadeOf(ranges: seq<Range>, k: Key, out: seq<Range>, g: seq<Range>, parts: seq<seq<Range>>, merged: seq<Range>) {
    multiset(g) == multiset(Group(ranges, k)) && ByStart(g) &&
    multiset(merged) == multiset(OfKey(out, k)) && PartsOf(g, parts, merged)
  }

  /**
   * Every key's ranges come out as the parts of its sorted group: each stands for
   * consecutive ranges that reach one another, with their last end, their latest update
   * and their first source, and the next part begins past the successor of that end.
   */
  lemma MergedRangesStandForParts(ranges: seq<Range>, out: seq<Range>, k: Key)
    requires Normalized(ranges, out)
    ensures exists g, parts, merged :: MadeOf(ranges, k, out, g, parts, merged)
  {
    assert KeyMerged(ranges, k, out);
    var g: seq<Range> :| MergedAs(ranges, k, g, out);
    hide OfKey, Group, Merge, PartsOf, Normalized, KeyMerged;
    SortedByStart(g);
    var parts := PartsOfGroup(g);
    assert MadeOf(ranges, k, out, g, parts, MergeGroup(g));
  }

  lemma SortedByStart(g: seq<Range>)
    requires SortedBy(StartLess, g)
    ensures ByStart(g)
  {
    forall i, j | 0 <= i < j < |g|
      ensures g[i].start < g[j].start || (g[i].start == g[j].start && g[i].end <= g[j].end)
    {
      assert !StartLess(g[j], g[i]);
    }
  }

  lemma PartsOfGroup(g: seq<Range>) returns (parts: seq<seq<Range>>)
    ensures PartsOf(g, parts, MergeGroup(g))
  {
    parts := [];
    if g != [] {
      hide PartsOf, Merge, StandsFor, Chained;
      OneRange(g[0]);
      parts := MergeParts(g[0], [g[0]], g[1..]);
      assert [g[0]] + g[1..] == g;
    }
  }

  /** The output is in order of start, then end, then list name, then category. */
  lemma OutputInOrder(ranges: seq<Range>, out: seq<Range>, i: nat, j: nat)
    requires Normalized(ranges, out) && i < j < |out|
    ensures var a, b := out[i], out[j];
      a.start < b.start ||
      (a.start == b.start && (a.end < b.end ||
        (a.end == b.end && (TextBefore(a.list, b.list) ||
          (a.list == b.list && (a.cat == b.cat || TextBefore(a.cat, b.cat)))))))
  {
    hide KeyMerged, TextLess, TextBefore;
    assert !OutLess(out[j], out[i]);
    TextOrder(out[i].list, out[j].list);
    TextOrder(out[i].cat, out[j].cat);
  }
}
