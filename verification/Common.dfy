/** Vocabulary shared by the models: optional values, results and machine words. */
module Common {
  datatype Option<+T> = None | Some(value: T) {
    function GetOr(default: T): T {
      if Some? then value else default
    }
  }

  datatype Result<+T, +E> = Success(value: T) | Failure(error: E) {
    function GetOrElse(default: T): T {
      if Success? then value else default
    }
  }

  const TWO32: nat := 0x1_0000_0000
  const TWO64: nat := 0x1_0000_0000_0000_0000
  const MAX32: nat := 0xFFFF_FFFF

  /** An unsigned 32-bit word, here always an IPv4 address or a small identifier. */
  type U32 = x: nat | x < 0x1_0000_0000

  /** An unsigned 64-bit word. */
  type U64 = x: nat | x < 0x1_0000_0000_0000_0000

  function Wrap32(x: int): (r: U32)
    ensures 0 <= x < TWO32 ==> r == x
  {
    x % TWO32
  }

  function Wrap64(x: int): (r: U64)
    ensures 0 <= x < TWO64 ==> r == x
  {
    x % TWO64
  }

  /** Sums may be cut to 64 bits at any time. */
  lemma WrapAdd(a: nat, b: nat)
    ensures Wrap64(Wrap64(a) + b) == Wrap64(a + b) == Wrap64(a + Wrap64(b))
  {
    WrapLeft(a, b);
    WrapLeft(b, a);
  }

  lemma WrapLeft(a: nat, b: nat)
    ensures (a % TWO64 + b) % TWO64 == (a + b) % TWO64
  {
    var q, r := a / TWO64, a % TWO64;
    assert a == TWO64 * q + r;
    var k, y := (r + b) / TWO64, (r + b) % TWO64;
    assert a + b == TWO64 * (q + k) + y;
    var l, z := (a + b) / TWO64, (a + b) % TWO64;
    assert a + b == TWO64 * l + z;
    SameParts(q + k, l, y, z);
  }

  lemma SameParts(k: int, l: int, y: U64, z: U64)
    requires TWO64 * k + y == TWO64 * l + z
    ensures y == z
  {
  }

  /** The elements p holds of, in order. */
  function Keep<A>(p: A -> bool, s: seq<A>): (r: seq<A>)
    ensures forall k :: 0 <= k < |r| ==> p(r[k]) && r[k] in s
    ensures |r| <= |s|
  {
    if s == [] then [] else (if p(s[0]) then [s[0]] else []) + Keep(p, s[1..])
  }

  /** Maps f over s and drops the results that are absent. */
  function Present<A, B>(f: A -> Option<B>, s: seq<A>): seq<B> {
    if s == [] then [] else (match f(s[0]) case None => [] case Some(b) => [b]) + Present(f, s[1..])
  }

  /** Dropping beforehand what has no result changes nothing. */
  lemma {:induction false} PresentKeep<A(!new), B>(f: A -> Option<B>, p: A -> bool, s: seq<A>)
    requires forall a :: p(a) <==> f(a).Some?
    ensures Present(f, s) == Present(f, Keep(p, s))
  {
    if s != [] {
      PresentKeep(f, p, s[1..]);
      var rest := Keep(p, s[1..]);
      if p(s[0]) {
        assert Keep(p, s) == [s[0]] + rest;
        assert ([s[0]] + rest)[1..] == rest;
      } else {
        assert Keep(p, s) == rest;
        assert Present(f, s) == Present(f, s[1..]);
      }
    }
  }

  /** When every element has a result, they line up. */
  lemma {:induction false} PresentAll<A, B>(f: A -> Option<B>, s: seq<A>)
    requires forall k :: 0 <= k < |s| ==> f(s[k]).Some?
    ensures |Present(f, s)| == |s|
    ensures forall k :: 0 <= k < |s| ==> f(s[k]) == Some(Present(f, s)[k])
  {
    if s != [] {
      PresentAll(f, s[1..]);
    }
  }

  lemma {:induction false} KeepHas<A>(p: A -> bool, s: seq<A>, k: nat)
    requires k < |s| && p(s[k])
    ensures s[k] in Keep(p, s)
  {
    if k > 0 {
      KeepHas(p, s[1..], k - 1);
    }
  }
}
