/** Sorting, searching and filtering of lists, as the Go library's sort package offers them. */
module Lists {
  import opened Common

  // ---- orders ----

  /** No later element is below an earlier one. */
  ghost predicate SortedBy<T>(less: (T, T) -> bool, s: seq<T>) {
    forall i, j :: 0 <= i < j < |s| ==> !less(s[j], s[i])
  }

  /** What sort.Slice needs of its argument: a strict weak order. */
  ghost predicate WeakOrder<T(!new)>(less: (T, T) -> bool) {
    (forall a, b :: less(a, b) ==> !less(b, a)) &&
    (forall a, b, c :: !less(b, a) && !less(c, b) ==> !less(c, a))
  }

  ghost predicate SortedCopy<T>(less: (T, T) -> bool, s: seq<T>, r: seq<T>) {
    SortedBy(less, r) && multiset(r) == multiset(s)
  }

  /**
   * sort.Slice, whose result is some sorted permutation: callers see this contract
   * alone, so what they prove holds for every order of equal elements.
   */
  method SortSlice<T(!new)>(s: seq<T>, less: (T, T) -> bool) returns (r: seq<T>)
    requires WeakOrder(less)
    ensures SortedCopy(less, s, r)
  {
    r := [];
    var i := 0;
    while i < |s|
      invariant i <= |s|
      invariant SortedCopy(less, s[..i], r)
    {
      var j := 0;
      while j < |r| && !less(s[i], r[j])
        invariant j <= |r|
        invariant forall k :: 0 <= k < j ==> !less(s[i], r[k])
      {
        j := j + 1;
      }
      InsertKeepsSorted(less, r, s[i], j);
      assert r == r[..j] + r[j..];
      assert s[..i + 1] == s[..i] + [s[i]];
      r := r[..j] + [s[i]] + r[j..];
      i := i + 1;
    }
    assert s[..i] == s;
  }

  lemma InsertKeepsSorted<T(!new)>(less: (T, T) -> bool, r: seq<T>, x: T, j: nat)
    requires WeakOrder(less) && SortedBy(less, r) && j <= |r|
    requires forall k :: 0 <= k < j ==> !less(x, r[k])
    requires j < |r| ==> less(x, r[j])
    ensures SortedBy(less, r[..j] + [x] + r[j..])
  {
    forall k | j <= k < |r|
      ensures !less(r[k], x)
    {
      assert !less(r[j], x);
      assert k > j ==> !less(r[k], r[j]);
    }
  }

  /**
   * sort.Search: an index at which f turns true, which is the first one at which it
   * holds when f never turns false again.
   */
  method SearchFirst(n: nat, f: nat -> bool) returns (i: nat)
    ensures i <= n && (i > 0 ==> !f(i - 1)) && (i < n ==> f(i))
    ensures (forall a, b :: 0 <= a <= b < n && f(a) ==> f(b)) ==>
      (forall k :: 0 <= k < i ==> !f(k)) && forall k :: i <= k < n ==> f(k)
  {
    i := 0;
    var j := n;
    while i < j
      invariant i <= j <= n
      invariant (i > 0 ==> !f(i - 1)) && (j < n ==> f(j))
    {
      var h := (i + j) / 2;
      if !f(h) {
        i := h + 1;
      } else {
        j := h;
      }
    }
  }

  // ---- permutations ----

  lemma {:induction false} KeepCount<A>(p: A -> bool, s: seq<A>, x: A)
    ensures multiset(Keep(p, s))[x] == if p(x) then multiset(s)[x] else 0
  {
    if s != [] {
      KeepCount(p, s[1..], x);
      assert s == [s[0]] + s[1..];
    }
  }

  lemma KeepPerm<A(!new)>(p: A -> bool, a: seq<A>, b: seq<A>)
    requires multiset(a) == multiset(b)
    ensures multiset(Keep(p, a)) == multiset(Keep(p, b))
  {
    forall x
      ensures multiset(Keep(p, a))[x] == multiset(Keep(p, b))[x]
    {
      KeepCount(p, a, x);
      KeepCount(p, b, x);
    }
  }

  lemma {:induction false} KeepAppend<A>(p: A -> bool, a: seq<A>, b: seq<A>)
    ensures Keep(p, a + b) == Keep(p, a) + Keep(p, b)
  {
    if a == [] {
      assert a + b == b;
    } else {
      assert (a + b)[1..] == a[1..] + b;
      KeepAppend(p, a[1..], b);
    }
  }

  function MapSeq<A, B>(f: A -> B, s: seq<A>): (r: seq<B>)
    ensures |r| == |s| && forall k :: 0 <= k < |s| ==> r[k] == f(s[k])
  {
    seq(|s|, k requires 0 <= k < |s| => f(s[k]))
  }

  lemma RemoveAt<A>(b: seq<A>, i: nat)
    requires i < |b|
    ensures multiset(b) == multiset(b[..i] + b[i + 1..]) + multiset{b[i]}
  {
    assert b == b[..i] + [b[i]] + b[i + 1..];
  }

  lemma RemoveHead<A>(a: seq<A>)
    requires a != []
    ensures multiset(a) == multiset(a[1..]) + multiset{a[0]}
  {
    assert a == [a[0]] + a[1..];
  }

  lemma Cancel<A>(x: multiset<A>, y: multiset<A>, e: A)
    requires x + multiset{e} == y + multiset{e}
    ensures x == y
  {
    assert x == (x + multiset{e}) - multiset{e};
    assert y == (y + multiset{e}) - multiset{e};
  }

  /** The head of a list has a place in any permutation of it, and the rests are permutations. */
  lemma MatchHead<A>(a: seq<A>, b: seq<A>) returns (i: nat)
    requires multiset(a) == multiset(b) && a != []
    ensures i < |b| && b[i] == a[0] && |a| == |b| && multiset(a[1..]) == multiset(b[..i] + b[i + 1..])
  {
    assert |a| == |multiset(a)| == |multiset(b)| == |b|;
    SameElements(a, b, 0);
    i :| 0 <= i < |b| && b[i] == a[0];
    RemoveHead(a);
    RemoveAt(b, i);
    Cancel(multiset(a[1..]), multiset(b[..i] + b[i + 1..]), a[0]);
  }

  /** Mapping turns permutations into permutations. */
  lemma {:induction false} MapPerm<A, B>(f: A -> B, a: seq<A>, b: seq<A>)
    requires multiset(a) == multiset(b)
    ensures multiset(MapSeq(f, a)) == multiset(MapSeq(f, b))
    decreases |a|
  {
    assert |a| == |multiset(a)| && |b| == |multiset(b)|;
    if a != [] {
      var i := MatchHead(a, b);
      var rest := b[..i] + b[i + 1..];
      MapPerm(f, a[1..], rest);
      RemoveHead(MapSeq(f, a));
      RemoveAt(MapSeq(f, b), i);
      assert MapSeq(f, a)[1..] == MapSeq(f, a[1..]);
      assert MapSeq(f, b)[..i] + MapSeq(f, b)[i + 1..] == MapSeq(f, rest);
    }
  }

  /** Two different positions of one list correspond to two of any permutation of it. */
  lemma {:induction false} PairOfPerm<T>(a: seq<T>, b: seq<T>, i: nat, j: nat) returns (k: nat, l: nat)
    requires multiset(a) == multiset(b) && i < |a| && j < |a| && i != j
    ensures k < |b| && l < |b| && k != l && b[k] == a[i] && b[l] == a[j]
  {
    SameElements(a, b, i);
    k :| 0 <= k < |b| && b[k] == a[i];
    RemoveAt(a, i);
    RemoveAt(b, k);
    var a', b' := a[..i] + a[i + 1..], b[..k] + b[k + 1..];
    Cancel(multiset(a'), multiset(b'), a[i]);
    var j' := if j < i then j else j - 1;
    assert a'[j'] == a[j];
    SameElements(a', b', j');
    var l' :| 0 <= l' < |b'| && b'[l'] == a[j];
    l := if l' < k then l' else l' + 1;
  }

  /** less tells any two different elements of the list apart. */
  ghost predicate Separates<T>(less: (T, T) -> bool, s: seq<T>) {
    forall i, j :: 0 <= i < |s| && 0 <= j < |s| && !less(s[i], s[j]) && !less(s[j], s[i]) ==> s[i] == s[j]
  }

  /** Filtering commutes with a map the filter does not notice. */
  lemma {:induction false} KeepMap<A, B>(f: A -> B, p: A -> bool, q: B -> bool, s: seq<A>)
    requires forall i :: 0 <= i < |s| ==> p(s[i]) == q(f(s[i]))
    ensures Keep(q, MapSeq(f, s)) == MapSeq(f, Keep(p, s))
  {
    if s != [] {
      KeepMap(f, p, q, s[1..]);
      assert MapSeq(f, s)[1..] == MapSeq(f, s[1..]);
      var head := if p(s[0]) then [s[0]] else [];
      MapAppend(f, head, Keep(p, s[1..]));
    }
  }

  lemma MapAppend<A, B>(f: A -> B, a: seq<A>, b: seq<A>)
    ensures MapSeq(f, a + b) == MapSeq(f, a) + MapSeq(f, b)
  {
  }

  lemma SameElements<T>(a: seq<T>, b: seq<T>, i: nat)
    requires multiset(a) == multiset(b) && i < |a|
    ensures exists k :: 0 <= k < |b| && b[k] == a[i]
  {
    assert a[i] in multiset(a);
    assert a[i] in multiset(b);
  }

  lemma SameHead<T>(less: (T, T) -> bool, a: seq<T>, b: seq<T>)
    requires SortedBy(less, a) && SortedBy(less, b) && multiset(a) == multiset(b) && Separates(less, a)
    requires a != [] && b != []
    ensures a[0] == b[0]
  {
    SameElements(b, a, 0);
    var i :| 0 <= i < |a| && a[i] == b[0];
    SameElements(a, b, 0);
    var k :| 0 <= k < |b| && b[k] == a[0];
    assert i > 0 ==> !less(a[i], a[0]);
    assert k > 0 ==> !less(b[k], b[0]);
  }

  /** Two sorted permutations of each other are equal when the order separates their elements. */
  lemma {:induction false} SortedUnique<T>(less: (T, T) -> bool, a: seq<T>, b: seq<T>)
    requires SortedBy(less, a) && SortedBy(less, b) && multiset(a) == multiset(b) && Separates(less, a)
    ensures a == b
    decreases |a|
  {
    assert |a| == |multiset(a)| && |b| == |multiset(b)|;
    if a != [] {
      SameHead(less, a, b);
      RemoveHead(a);
      RemoveHead(b);
      Cancel(multiset(a[1..]), multiset(b[1..]), a[0]);
      SortedTail(less, a);
      SortedTail(less, b);
      SortedUnique(less, a[1..], b[1..]);
      assert a == [a[0]] + a[1..] && b == [b[0]] + b[1..];
    }
  }

  lemma SortedTail<T>(less: (T, T) -> bool, s: seq<T>)
    requires s != []
    ensures SortedBy(less, s) ==> SortedBy(less, s[1..])
    ensures Separates(less, s) ==> Separates(less, s[1..])
  {
  }

  /** A list that is sorted already and separated does not change when sorted. */
  lemma SortedStays<T>(less: (T, T) -> bool, s: seq<T>, r: seq<T>)
    requires SortedBy(less, s) && SortedCopy(less, s, r) && Separates(less, s)
    ensures r == s
  {
    SortedUnique(less, s, r);
  }

  // ---- strings in the order of their code points ----

  predicate TextLess(a: string, b: string) {
    b != "" && (a == "" || a[0] < b[0] || (a[0] == b[0] && TextLess(a[1..], b[1..])))
  }

  lemma {:induction false} TextLessAsym(a: string, b: string)
    ensures TextLess(a, b) ==> !TextLess(b, a)
    ensures a != b ==> TextLess(a, b) || TextLess(b, a)
    ensures !TextLess(a, a)
  {
    if a != "" {
      TextLessAsym(a[1..], a[1..]);
      if b != "" {
        TextLessAsym(a[1..], b[1..]);
        assert a == [a[0]] + a[1..] && b == [b[0]] + b[1..];
      }
    }
  }

  /** At the first place where the texts differ, a has the smaller character or has ended. */
  ghost predicate TextBefore(a: string, b: string) {
    exists n :: 0 <= n <= |a| && n < |b| && a[..n] == b[..n] && (n == |a| || a[n] < b[n])
  }

  lemma {:induction false} TextLessExactly(a: string, b: string)
    ensures TextLess(a, b) <==> TextBefore(a, b)
  {
    if b == "" || a == "" {
      assert b != "" ==> a[..0] == b[..0];
    } else {
      var x, y := a[1..], b[1..];
      TextLessExactly(x, y);
      if TextLess(a, b) {
        if a[0] < b[0] {
          assert a[..0] == b[..0];
        } else {
          var n :| 0 <= n <= |x| && n < |y| && x[..n] == y[..n] && (n == |x| || x[n] < y[n]);
          assert a[..n + 1] == [a[0]] + x[..n] && b[..n + 1] == [b[0]] + y[..n];
          assert n < |x| ==> a[n + 1] == x[n];
          assert b[n + 1] == y[n];
        }
      }
      if TextBefore(a, b) {
        var n :| 0 <= n <= |a| && n < |b| && a[..n] == b[..n] && (n == |a| || a[n] < b[n]);
        if n > 0 {
          assert a[0] == a[..n][0] == b[..n][0] == b[0];
          assert x[..n - 1] == a[..n][1..] && y[..n - 1] == b[..n][1..];
          assert y[n - 1] == b[n] && (n < |a| ==> x[n - 1] == a[n]);
        }
      }
    }
  }

  lemma TextOrder(a: string, b: string)
    ensures TextLess(a, b) <==> TextBefore(a, b)
    ensures TextLess(b, a) || TextLess(a, b) || a == b
  {
    TextLessExactly(a, b);
    TextLessAsym(a, b);
  }

  lemma {:induction false} TextLessTrans(a: string, b: string, c: string)
    requires !TextLess(b, a) && !TextLess(c, b)
    ensures !TextLess(c, a)
  {
    if a != "" && b != "" && c != "" && a[0] == b[0] == c[0] {
      TextLessTrans(a[1..], b[1..], c[1..]);
    }
  }
}
