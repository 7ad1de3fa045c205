/** The reputation index: a normalized list of ranges replaced as a whole, and its lookup. */
module ReputationIndex {
  import opened Common
  import opened Lists
  import opened ReputationNormalize
  import Bits
  import Cidr
  import NetworkText
  import Laws = ReputationLaws

  datatype Hit = Hit(list: string, cat: string, network: string)

  /** The text that stands for a (list, category) pair in the lookup's map. */
  function JoinKey(list: string, cat: string): string {
    list + "\U{0}" + cat
  }

  function RangeKey(r: Range): string {
    JoinKey(r.list, r.cat)
  }

  function HitKey(h: Hit): string {
    JoinKey(h.list, h.cat)
  }

  function HitOf(r: Range): Hit {
    Hit(r.list, r.cat, Cidr.FormatNetworkPreferCidr(r.start, r.end))
  }

  predicate HitLess(a: Hit, b: Hit) {
    if a.cat != b.cat then TextLess(a.cat, b.cat) else TextLess(a.list, b.list)
  }

  /** Loopback, link-local, multicast, unspecified, private and shared address space. */
  predicate NonPublic(ip: U32) {
    var a, b := Cidr.Byte(ip, 0), Cidr.Byte(ip, 1);
    a == 127 || (a == 169 && b == 254) || 224 <= a <= 239 || ip == 0 ||
    a == 10 || (a == 172 && 16 <= b <= 31) || (a == 192 && b == 168) || (a == 100 && 64 <= b <= 127)
  }

  predicate InBlock(ip: U32, block: U32, p: nat)
    requires p <= 32
  {
    Cidr.PrefixBits(ip, p) == Cidr.PrefixBits(block, p)
  }

  lemma ByteBlock(ip: U32, a: nat)
    requires a < 256
    ensures InBlock(ip, a * 0x100_0000, 8) <==> Cidr.Byte(ip, 0) == a
  {
    SmallPowers();
  }

  lemma LinkLocalBlock(ip: U32)
    ensures InBlock(ip, 0xA9FE_0000, 16) <==> Cidr.Byte(ip, 0) == 169 && Cidr.Byte(ip, 1) == 254
  {
    SmallPowers();
  }

  lemma HomeBlock(ip: U32)
    ensures InBlock(ip, 0xC0A8_0000, 16) <==> Cidr.Byte(ip, 0) == 192 && Cidr.Byte(ip, 1) == 168
  {
    SmallPowers();
  }

  lemma MulticastBlock(ip: U32)
    ensures InBlock(ip, 0xE000_0000, 4) <==> 224 <= Cidr.Byte(ip, 0) <= 239
    ensures InBlock(ip, 0, 32) <==> ip == 0
  {
    SmallPowers();
  }

  lemma PrivateBlock(ip: U32)
    ensures InBlock(ip, 0xAC10_0000, 12) <==> Cidr.Byte(ip, 0) == 172 && 16 <= Cidr.Byte(ip, 1) <= 31
  {
    SmallPowers();
  }

  lemma SharedBlock(ip: U32)
    ensures InBlock(ip, 0x6440_0000, 10) <==> Cidr.Byte(ip, 0) == 100 && 64 <= Cidr.Byte(ip, 1) <= 127
  {
    SmallPowers();
  }

  /** The non-public addresses are those of eight CIDR blocks. */
  lemma NonPublicBlocks(ip: U32)
    ensures NonPublic(ip) <==>
      InBlock(ip, 0x7F00_0000, 8) || InBlock(ip, 0xA9FE_0000, 16) || InBlock(ip, 0xE000_0000, 4) || InBlock(ip, 0, 32) ||
      InBlock(ip, 0x0A00_0000, 8) || InBlock(ip, 0xAC10_0000, 12) || InBlock(ip, 0xC0A8_0000, 16) || InBlock(ip, 0x6440_0000, 10)
  {
    hide InBlock, Cidr.Byte;
    ByteBlock(ip, 127);
    ByteBlock(ip, 10);
    LinkLocalBlock(ip);
    HomeBlock(ip);
    MulticastBlock(ip);
    PrivateBlock(ip);
    SharedBlock(ip);
  }

  lemma SmallPowers()
    ensures Bits.Pow2(0) == 1 && Bits.Pow2(16) == 0x1_0000 && Bits.Pow2(20) == 0x10_0000
    ensures Bits.Pow2(22) == 0x40_0000 && Bits.Pow2(24) == 0x100_0000 && Bits.Pow2(28) == 0x1000_0000
  {
    assert Bits.Pow2(4) == 16 && Bits.Pow2(6) == 64 && Bits.Pow2(8) == 256;
    Bits.Pow2Sum(8, 8);
    Bits.Pow2Sum(16, 4);
    Bits.Pow2Sum(16, 6);
    Bits.Pow2Sum(16, 8);
    Bits.Pow2Sum(20, 8);
  }

  predicate Covering(r: Range, ip: U32) {
    r.start <= ip <= r.end
  }

  // ---- what a lookup answers ----

  /** Position i holds a narrowest covering range among those with joined key jk. */
  ghost predicate Best(s: seq<Range>, ip: U32, jk: string, i: int) {
    0 <= i < |s| && Covering(s[i], ip) && RangeKey(s[i]) == jk &&
    forall j :: 0 <= j < |s| && Covering(s[j], ip) && RangeKey(s[j]) == jk ==> s[i].end - s[i].start <= s[j].end - s[j].start
  }

  ghost predicate HasCovering(s: seq<Range>, ip: U32, jk: string) {
    exists i :: 0 <= i < |s| && Covering(s[i], ip) && RangeKey(s[i]) == jk
  }

  ghost predicate BestHit(s: seq<Range>, ip: U32, jk: string, h: Hit) {
    exists i :: Best(s, ip, jk, i) && h == HitOf(s[i])
  }

  ghost predicate Seen(s: seq<Range>, ip: U32, seen: map<string, Hit>) {
    forall jk :: (jk in seen <==> HasCovering(s, ip, jk)) && (jk in seen ==> BestHit(s, ip, jk, seen[jk]))
  }

  /**
   * The hits are sorted, one for every joined key with a covering range and no
   * other, each formatted from a narrowest such range.
   */
  ghost predicate Answers(s: seq<Range>, ip: U32, hits: seq<Hit>) {
    SortedBy(HitLess, hits) &&
    (forall i, j :: 0 <= i < j < |hits| ==> HitKey(hits[i]) != HitKey(hits[j])) &&
    (forall i :: 0 <= i < |hits| ==> BestHit(s, ip, HitKey(hits[i]), hits[i])) &&
    forall jk :: HasCovering(s, ip, jk) ==> exists i :: 0 <= i < |hits| && HitKey(hits[i]) == jk
  }

  lemma HitLessIsWeakOrder()
    ensures WeakOrder(HitLess)
  {
    forall a, b | HitLess(a, b)
      ensures !HitLess(b, a)
    {
      TextLessAsym(a.cat, b.cat);
      TextLessAsym(a.list, b.list);
    }
    forall a, b, c | !HitLess(b, a) && !HitLess(c, b)
      ensures !HitLess(c, a)
    {
      TextLessAsym(a.cat, b.cat);
      TextLessAsym(b.cat, c.cat);
      TextLessAsym(a.cat, c.cat);
      if a.cat == b.cat == c.cat {
        TextLessTrans(a.list, b.list, c.list);
      } else {
        TextLessTrans(a.cat, b.cat, c.cat);
      }
    }
  }

  lemma SeenSkips(s: seq<Range>, r: Range, ip: U32, seen: map<string, Hit>)
    requires Seen(s, ip, seen) && !Covering(r, ip)
    ensures Seen(s + [r], ip, seen)
  {
    hide RangeKey, HitOf;
    var t := s + [r];
    forall jk
      ensures HasCovering(t, ip, jk) <==> HasCovering(s, ip, jk)
      ensures jk in seen ==> BestHit(t, ip, jk, seen[jk])
    {
      if HasCovering(s, ip, jk) {
        var i :| 0 <= i < |s| && Covering(s[i], ip) && RangeKey(s[i]) == jk;
        assert t[i] == s[i];
      }
      if jk in seen {
        var i :| Best(s, ip, jk, i) && seen[jk] == HitOf(s[i]);
        assert Best(t, ip, jk, i);
      }
    }
  }

  lemma SeenOther(s: seq<Range>, r: Range, ip: U32, seen: map<string, Hit>, jk: string)
    requires Seen(s, ip, seen) && RangeKey(r) != jk
    ensures HasCovering(s + [r], ip, jk) <==> HasCovering(s, ip, jk)
    ensures jk in seen ==> BestHit(s + [r], ip, jk, seen[jk])
  {
    var t := s + [r];
    if HasCovering(s, ip, jk) {
      var i :| 0 <= i < |s| && Covering(s[i], ip) && RangeKey(s[i]) == jk;
      assert t[i] == s[i];
    }
    if jk in seen {
      var i :| Best(s, ip, jk, i) && seen[jk] == HitOf(s[i]);
      assert Best(t, ip, jk, i);
    }
  }

  /** The first covering range of its key, or one narrower than the best so far. */
  lemma SeenTakes(s: seq<Range>, r: Range, ip: U32, seen: map<string, Hit>, i: nat)
    requires Seen(s, ip, seen) && Covering(r, ip)
    requires RangeKey(r) in seen ==> Best(s, ip, RangeKey(r), i) && r.end - r.start < s[i].end - s[i].start
    ensures Seen(s + [r], ip, seen[RangeKey(r) := HitOf(r)])
  {
    var t, jk := s + [r], RangeKey(r);
    var seen' := seen[jk := HitOf(r)];
    assert t[|s|] == r;
    assert Best(t, ip, jk, |s|) by {
      if jk !in seen {
        assert !HasCovering(s, ip, jk);
      }
    }
    assert BestHit(t, ip, jk, HitOf(r)) && HasCovering(t, ip, jk);
    forall k | k != jk
      ensures (k in seen' <==> HasCovering(t, ip, k)) && (k in seen' ==> BestHit(t, ip, k, seen'[k]))
    {
      SeenOther(s, r, ip, seen, k);
    }
  }

  /** A range no narrower than the best so far changes nothing. */
  lemma SeenKeeps(s: seq<Range>, r: Range, ip: U32, seen: map<string, Hit>, i: nat)
    requires Seen(s, ip, seen) && Covering(r, ip) && RangeKey(r) in seen
    requires Best(s, ip, RangeKey(r), i) && seen[RangeKey(r)] == HitOf(s[i])
    requires r.end - r.start >= s[i].end - s[i].start
    ensures Seen(s + [r], ip, seen)
  {
    var t, jk := s + [r], RangeKey(r);
    assert Best(t, ip, jk, i);
    assert BestHit(t, ip, jk, seen[jk]);
    assert t[i] == s[i];
    assert HasCovering(t, ip, jk);
    forall k | k != jk
      ensures (k in seen <==> HasCovering(t, ip, k)) && (k in seen ==> BestHit(t, ip, k, seen[k]))
    {
      SeenOther(s, r, ip, seen, k);
    }
  }

  lemma SeenEmpty(ip: U32)
    ensures Seen([], ip, map[])
  {
  }

  /** Ranges that start behind the address do not matter. */
  lemma SeenRest(s: seq<Range>, pos: nat, ip: U32, seen: map<string, Hit>)
    requires pos <= |s| && Seen(s[..pos], ip, seen)
    requires forall k :: pos <= k < |s| ==> s[k].start > ip
    ensures Seen(s, ip, seen)
    decreases |s| - pos
  {
    if pos == |s| {
      assert s[..pos] == s;
    } else {
      SeenSkips(s[..pos], s[pos], ip, seen);
      assert s[..pos] + [s[pos]] == s[..pos + 1];
      SeenRest(s, pos + 1, ip, seen);
    }
  }

  /** Puts every range of an update under one list name. */
  method RelabelAll(rs: seq<Range>, name: string) returns (out: seq<Range>)
    ensures out == Relabel(rs, name)
  {
    out := [];
    var i := 0;
    while i < |rs|
      invariant i <= |rs| && out == Relabel(rs[..i], name)
    {
      out := out + [rs[i].(list := name)];
      i := i + 1;
    }
    assert rs[..i] == rs;
  }

  /** Whether r is narrower than the network a hit was printed from. */
  method Narrower(v6: string -> Option<U32>, r: Range, h: Hit, ghost p: Range) returns (narrower: bool)
    requires h == HitOf(p) && p.start <= p.end && r.start <= r.end
    ensures narrower <==> r.end - r.start < p.end - p.start
  {
    hide Cidr.FormatNetworkPreferCidr, Cidr.ParseNetworkField;
    Cidr.NetworkRoundTrip(v6, p.start, p.end);
    var prev := Cidr.ParseNetworkField(v6, h.network);
    narrower := prev.None? || Wrap32(r.end - r.start) < Wrap32(prev.value.1 - prev.value.0);
  }

  class Index {
    var ranges: seq<Range>

    ghost predicate Valid()
      reads this
    {
      SortedBy(OutLess, ranges) && forall i :: 0 <= i < |ranges| ==> Usable(ranges[i]) && IsClean(ranges[i])
    }

    constructor ()
      ensures Valid() && ranges == []
    {
      ranges := [];
    }

    method ReplaceAll(rs: seq<Range>)
      modifies this
      ensures Valid() && Step(old(ranges), ReplaceAllOp(rs), ranges)
    {
      ranges := NormalizeRanges(rs);
      Laws.NormalizedIsTidy(rs, ranges);
    }

    method ReplaceList(listName: string, rs: seq<Range>)
      requires Valid()
      modifies this
      ensures Valid() && Step(old(ranges), ReplaceListOp(listName, rs), ranges)
    {
      hide OutLess, Clean, IsClean, Usable, Others, Relabel;
      var name := Cidr.GoTrim(listName);
      var kept := KeepOthers(name);
      var added := RelabelAll(rs, name);
      ranges := NormalizeRanges(kept + added);
      Laws.NormalizedIsTidy(kept + added, ranges);
    }

    method DeleteList(listName: string)
      requires Valid()
      modifies this
      ensures Valid() && Step(old(ranges), DeleteListOp(listName), ranges)
    {
      var name := Cidr.GoTrim(listName);
      ghost var before := ranges;
      ranges := KeepOthers(name);
      KeptIsSorted(before, name);
    }

    /** The loop over the current ranges that leaves out one list. */
    method KeepOthers(name: string) returns (kept: seq<Range>)
      ensures kept == Others(ranges, name)
    {
      kept := [];
      var i := 0;
      while i < |ranges|
        invariant i <= |ranges|
        invariant kept == Others(ranges[..i], name)
      {
        assert ranges[..i + 1] == ranges[..i] + [ranges[i]];
        KeepAppend(NotOfList(name), ranges[..i], [ranges[i]]);
        KeepOne(NotOfList(name), ranges[i]);
        if ranges[i].list != name {
          kept := kept + [ranges[i]];
        }
        i := i + 1;
      }
      assert ranges[..i] == ranges;
    }

    /** One candidate of the lookup loop. */
    method Consider(v6: string -> Option<U32>, k: nat, ip: U32, seen: map<string, Hit>) returns (seen': map<string, Hit>)
      requires Valid() && k < |ranges| && Seen(ranges[..k], ip, seen) && ranges[k].start <= ip
      ensures Seen(ranges[..k + 1], ip, seen')
    {
      hide Seen, Best, OutLess, Usable, Clean, IsClean, HitOf, RangeKey;
      var r := ranges[k];
      ghost var s := ranges[..k];
      assert ranges[..k + 1] == s + [r];
      if ip > r.end {
        SeenSkips(s, r, ip, seen);
        return seen;
      }
      var jk := RangeKey(r);
      if jk !in seen {
        SeenTakes(s, r, ip, seen, 0);
        return seen[jk := HitOf(r)];
      }
      ghost var i := BestOf(s, ip, seen, jk);
      UsableAt(k);
      UsableAt(i);
      var narrower := Narrower(v6, r, seen[jk], s[i]);
      if narrower {
        SeenTakes(s, r, ip, seen, i);
        seen' := seen[jk := HitOf(r)];
      } else {
        SeenKeeps(s, r, ip, seen, i);
        seen' := seen;
      }
    }

    lemma UsableAt(i: nat)
      requires Valid() && i < |ranges|
      ensures ranges[i].start <= ranges[i].end
    {
    }

    lemma StartsInOrder(i: nat, j: nat)
      requires Valid() && i <= j < |ranges|
      ensures ranges[i].start <= ranges[j].start
    {
      assert i < j ==> !OutLess(ranges[j], ranges[i]);
    }

    /** The candidates are the ranges that start at or before the address. */
    method Candidates(ip: U32) returns (pos: nat)
      requires Valid()
      ensures pos <= |ranges|
      ensures forall k :: 0 <= k < pos ==> ranges[k].start <= ip
      ensures forall k :: pos <= k < |ranges| ==> ranges[k].start > ip
    {
      hide OutLess, Usable, Clean, IsClean;
      var rs := ranges;
      forall a, b | 0 <= a <= b < |rs|
        ensures rs[a].start <= rs[b].start
      {
        StartsInOrder(a, b);
      }
      var behind := (k: nat) => k < |rs| && rs[k].start > ip;
      pos := SearchFirst(|rs|, behind);
      assert forall k: nat :: k < |rs| ==> (behind(k) <==> rs[k].start > ip);
      forall k | 0 <= k < |rs|
        ensures rs[k].start > ip <==> k >= pos
      {
        assert behind(k) <==> rs[k].start > ip;
      }
    }

    method LookupPublic(v6: string -> Option<U32>, ip: U32) returns (hits: seq<Hit>)
      requires Valid()
      ensures Answers(ranges, ip, hits)
    {
      hide Seen, Answers, Covering, OutLess, Usable, Clean, IsClean, SortedBy;
      var pos := Candidates(ip);
      var seen: map<string, Hit> := map[];
      SeenEmpty(ip);
      var k := 0;
      assert ranges[..0] == [];
      while k < pos
        invariant k <= pos
        invariant Seen(ranges[..k], ip, seen)
      {
        seen := Consider(v6, k, ip, seen);
        k := k + 1;
      }
      SeenRest(ranges, pos, ip, seen);
      hits := SortedValues(ranges, ip, seen);
    }

    /** All hits of a public address; no hits for anything else. */
    method Lookup(v6: string -> Option<U32>, ipStr: string) returns (hits: seq<Hit>)
      requires Valid()
      ensures match Cidr.ParseAddress(v6, Cidr.GoTrim(ipStr))
        case None => hits == []
        case Some(ip) => if NonPublic(ip) then hits == [] else Answers(ranges, ip, hits)
      ensures InOrder(hits)
      ensures forall i :: 0 <= i < |hits| ==>
        Cidr.ParseAddress(v6, Cidr.GoTrim(ipStr)).Some? &&
        Narrowest(ranges, Cidr.ParseAddress(v6, Cidr.GoTrim(ipStr)).value, hits[i])
    {
      hide Answers, Cidr.ParseAddress, NonPublic, OutLess, Usable, Clean, IsClean;
      var parsed := Cidr.ParseAddress(v6, Cidr.GoTrim(ipStr));
      if parsed.None? || NonPublic(parsed.value) {
        return [];
      }
      hits := LookupPublic(v6, parsed.value);
      HitsAreNarrowest(ranges, parsed.value, hits);
      hide Narrowest, InOrder;
    }
  }

  /**
   * The hit has the names and the printed network of a range of the list that covers the
   * address, and no covering range with these names is shorter.
   */
  ghost predicate Narrowest(s: seq<Range>, ip: U32, h: Hit) {
    exists i :: 0 <= i < |s| && s[i].start <= ip <= s[i].end && s[i].list == h.list && s[i].cat == h.cat &&
      NetworkText.PrintedAs(h.network, s[i].start, s[i].end) &&
      forall j :: 0 <= j < |s| && s[j].start <= ip <= s[j].end && s[j].list == h.list && s[j].cat == h.cat ==>
        s[i].end - s[i].start <= s[j].end - s[j].start
  }

  /** Categories ascend, and lists within one category. */
  ghost predicate InOrder(hits: seq<Hit>) {
    forall i, j :: 0 <= i < j < |hits| ==>
      TextBefore(hits[i].cat, hits[j].cat) || (hits[i].cat == hits[j].cat && (hits[i].list == hits[j].list || TextBefore(hits[i].list, hits[j].list)))
  }

  lemma HitsAreNarrowest(s: seq<Range>, ip: U32, hits: seq<Hit>)
    requires Answers(s, ip, hits)
    ensures InOrder(hits) && forall i :: 0 <= i < |hits| ==> Narrowest(s, ip, hits[i])
  {
    hide Cidr.FormatNetworkPreferCidr;
    forall i, j | 0 <= i < j < |hits|
      ensures TextBefore(hits[i].cat, hits[j].cat) || (hits[i].cat == hits[j].cat && (hits[i].list == hits[j].list || TextBefore(hits[i].list, hits[j].list)))
    {
      assert !HitLess(hits[j], hits[i]);
      TextOrder(hits[i].cat, hits[j].cat);
      TextOrder(hits[i].list, hits[j].list);
    }
    forall i | 0 <= i < |hits|
      ensures Narrowest(s, ip, hits[i])
    {
      assert BestHit(s, ip, HitKey(hits[i]), hits[i]);
      var j :| Best(s, ip, HitKey(hits[i]), j) && hits[i] == HitOf(s[j]);
      NetworkText.PrintedExactly(s[j].start, s[j].end);
      hide NetworkText.PrintedAs, JoinKey;
    }
  }

  /** The range behind a hit seen so far. */
  lemma BestOf(s: seq<Range>, ip: U32, seen: map<string, Hit>, jk: string) returns (i: nat)
    requires Seen(s, ip, seen) && jk in seen
    ensures i < |s| && Best(s, ip, jk, i) && seen[jk] == HitOf(s[i])
  {
    assert BestHit(s, ip, jk, seen[jk]);
    i :| Best(s, ip, jk, i) && seen[jk] == HitOf(s[i]);
  }

  lemma BestHitKey(s: seq<Range>, ip: U32, jk: string, h: Hit)
    requires BestHit(s, ip, jk, h)
    ensures HitKey(h) == jk
  {
  }

  ghost predicate ValuesOf(seen: map<string, Hit>, done: set<string>, hits: seq<Hit>) {
    (forall i :: 0 <= i < |hits| ==> HitKey(hits[i]) in done && HitKey(hits[i]) in seen && seen[HitKey(hits[i])] == hits[i]) &&
    (forall i, j :: 0 <= i < j < |hits| ==> HitKey(hits[i]) != HitKey(hits[j])) &&
    forall jk :: jk in done && jk in seen ==> exists i :: 0 <= i < |hits| && HitKey(hits[i]) == jk
  }

  /** The map's values, taken in any order and then sorted. */
  method SortedValues(s: seq<Range>, ip: U32, seen: map<string, Hit>) returns (hits: seq<Hit>)
    requires Seen(s, ip, seen)
    ensures Answers(s, ip, hits)
  {
    hide BestHit, HasCovering, HitLess;
    var todo := seen.Keys;
    var values: seq<Hit> := [];
    while todo != {}
      invariant todo <= seen.Keys
      invariant ValuesOf(seen, seen.Keys - todo, values)
      decreases todo
    {
      var jk :| jk in todo;
      BestHitKey(s, ip, jk, seen[jk]);
      AppendValue(seen, seen.Keys - todo, values, jk);
      values := values + [seen[jk]];
      assert (seen.Keys - todo) + {jk} == seen.Keys - (todo - {jk});
      todo := todo - {jk};
    }
    HitLessIsWeakOrder();
    hits := SortSlice(values, HitLess);
    PermutedValues(seen, values, hits);
    forall jk | HasCovering(s, ip, jk)
      ensures exists i :: 0 <= i < |hits| && HitKey(hits[i]) == jk
    {
      assert jk in seen;
    }
  }

  lemma AppendValue(seen: map<string, Hit>, done: set<string>, values: seq<Hit>, jk: string)
    requires ValuesOf(seen, done, values) && jk in seen && jk !in done && HitKey(seen[jk]) == jk
    ensures ValuesOf(seen, done + {jk}, values + [seen[jk]])
  {
    hide HitKey;
    var all := values + [seen[jk]];
    forall k | k in done + {jk} && k in seen
      ensures exists i :: 0 <= i < |all| && HitKey(all[i]) == k
    {
      if k == jk {
        assert HitKey(all[|values|]) == k;
      } else {
        var i :| 0 <= i < |values| && HitKey(values[i]) == k;
        assert HitKey(all[i]) == k;
      }
    }
  }

  lemma PermutedValues(seen: map<string, Hit>, values: seq<Hit>, hits: seq<Hit>)
    requires ValuesOf(seen, seen.Keys, values) && multiset(hits) == multiset(values)
    ensures ValuesOf(seen, seen.Keys, hits)
  {
    hide HitKey;
    forall i | 0 <= i < |hits|
      ensures HitKey(hits[i]) in seen && seen[HitKey(hits[i])] == hits[i]
    {
      SameElements(hits, values, i);
    }
    forall i, j | 0 <= i < j < |hits|
      ensures HitKey(hits[i]) != HitKey(hits[j])
    {
      if hits[i] == hits[j] {
        TwiceInList(hits, i, j);
        DistinctOnce(values, hits[i]);
        assert false;
      }
    }
    forall jk | jk in seen
      ensures exists i :: 0 <= i < |hits| && HitKey(hits[i]) == jk
    {
      var i :| 0 <= i < |values| && HitKey(values[i]) == jk;
      SameElements(values, hits, i);
    }
  }

  lemma TwiceInList(s: seq<Hit>, i: nat, j: nat)
    requires i < j < |s| && s[i] == s[j]
    ensures multiset(s)[s[i]] >= 2
  {
    assert s == s[..j] + [s[j]] + s[j + 1..];
    assert s[i] in s[..j];
    assert multiset(s[..j])[s[i]] >= 1;
  }

  lemma {:induction false} DistinctOnce(s: seq<Hit>, h: Hit)
    requires forall i, j :: 0 <= i < j < |s| ==> HitKey(s[i]) != HitKey(s[j])
    ensures multiset(s)[h] <= 1
  {
    if s != [] {
      RemoveHead(s);
      DistinctOnce(s[1..], h);
    }
  }

  // ---- the operations, as steps on the list of ranges ----

  datatype Op = ReplaceAllOp(rs: seq<Range>) | ReplaceListOp(name: string, rs: seq<Range>) | DeleteListOp(name: string)

  function NotOfList(name: string): Range -> bool {
    (r: Range) => r.list != name
  }

  function Others(s: seq<Range>, name: string): seq<Range> {
    Keep(NotOfList(name), s)
  }

  function Relabel(rs: seq<Range>, name: string): seq<Range> {
    MapSeq((r: Range) => r.(list := name), rs)
  }

  ghost predicate Step(before: seq<Range>, op: Op, after: seq<Range>) {
    match op
    case ReplaceAllOp(rs) => Normalized(rs, after)
    case ReplaceListOp(name, rs) =>
      var trimmed := Cidr.GoTrim(name);
      Normalized(Others(before, trimmed) + Relabel(rs, trimmed), after)
    case DeleteListOp(name) => after == Others(before, Cidr.GoTrim(name))
  }

  lemma {:induction false} KeptIsSorted(s: seq<Range>, name: string)
    requires SortedBy(OutLess, s)
    ensures SortedBy(OutLess, Others(s, name))
  {
    hide OutLess;
    if s != [] {
      SortedTail(OutLess, s);
      KeptIsSorted(s[1..], name);
      var rest := Others(s[1..], name);
      if s[0].list != name {
        forall j | 0 <= j < |rest|
          ensures !OutLess(rest[j], s[0])
        {
          assert rest[j] in s[1..];
        }
      }
    }
  }
}
