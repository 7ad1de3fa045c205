/** Networks as text, both ways: how each range is printed, and exactly which texts are read as which range. */
module NetworkText {
  import opened Common
  import opened Text
  import opened Bits
  import opened Cidr

  // ---- printing ----

  /**
   * The text of a range: one address by itself, a CIDR block of length 1 to 32 with its
   * prefix length, and any other range by its two ends.
   */
  ghost predicate PrintedAs(text: string, start: U32, end: U32) {
    if start == end then text == Quad(start)
    else if Length(start, end) then exists p :: 1 <= p <= 32 && IsBlock(start, end, p) && text == Quad(start) + "/" + Dec(p)
    else text == Quad(start) + "-" + Quad(end)
  }

  /** The range is a CIDR block that has a prefix length. */
  ghost predicate Length(start: U32, end: U32) {
    exists p :: 1 <= p <= 32 && IsBlock(start, end, p)
  }

  lemma {:induction false} DecIsInjective(a: nat, b: nat)
    requires a < 100 && b < 100
    ensures Dec(a) == Dec(b) <==> a == b
  {
    DecDigits(a);
    DecDigits(b);
    hide Dec, ParseDec;
  }

  lemma SplitAfter(a: string, c: char, b: string, d: char, e: string)
    ensures a + [c] + b == a + [d] + e <==> c == d && b == e
  {
    if a + [c] + b == a + [d] + e {
      assert (a + [c] + b)[|a|] == c && (a + [d] + e)[|a|] == d;
      assert (a + [c] + b)[|a| + 1..] == b && (a + [d] + e)[|a| + 1..] == e;
    }
  }

  /**
   * A range is printed with prefix length p exactly when it is the CIDR block of that
   * length, and by its two ends exactly when it is no block of length 1 to 32.
   */
  lemma PrintedExactly(start: U32, end: U32)
    requires start <= end
    ensures PrintedAs(FormatNetworkPreferCidr(start, end), start, end)
    ensures start == end ==> FormatNetworkPreferCidr(start, end) == Quad(start)
    ensures start < end ==> forall p :: 1 <= p <= 32 ==>
      (FormatNetworkPreferCidr(start, end) == Quad(start) + "/" + Dec(p) <==> IsBlock(start, end, p))
    ensures start < end ==>
      (FormatNetworkPreferCidr(start, end) == Quad(start) + "-" + Quad(end) <==> !exists p :: 1 <= p <= 32 && IsBlock(start, end, p))
  {
    hide Quad, Dec, IsBlock, ExactPrefixLen;
    forall p | 1 <= p <= 32
      ensures ExactPrefixLen(start, end) == Some(p) <==> IsBlock(start, end, p)
    {
      PrefixLenIsExact(start, end, p);
    }
    if ExactPrefixLen(start, end).Some? {
      var q := ExactPrefixLen(start, end).value;
      PrefixLenIsExact(start, end, q);
      SplitAfter(Quad(start), '/', Dec(q), '-', Quad(end));
      forall p | 1 <= p <= 32
        ensures Quad(start) + "/" + Dec(q) == Quad(start) + "/" + Dec(p) <==> p == q
      {
        SplitAfter(Quad(start), '/', Dec(q), '/', Dec(p));
        DecIsInjective(p, q);
      }
    } else {
      forall p | 1 <= p <= 32
        ensures Quad(start) + "-" + Quad(end) != Quad(start) + "/" + Dec(p)
      {
        SplitAfter(Quad(start), '-', Quad(end), '/', Dec(p));
      }
    }
  }

  // ---- reading one address ----

  /** Numbers below 256 in decimal, dots between them. */
  function Dotted(f: seq<nat>): string
    requires forall k :: 0 <= k < |f| ==> f[k] < 256
  {
    if f == [] then "" else if |f| == 1 then Dec(f[0]) else Dec(f[0]) + "." + Dotted(f[1..])
  }

  /** What has been read of a field when digits of its value are known. */
  function ReadSoFar(val: nat, digits: nat): string
    requires val < 256
  {
    if digits == 0 then "" else Dec(val)
  }

  predicate Partial(val: nat, digits: nat) {
    val < 256 && if digits == 0 then val == 0 else |Dec(val)| == digits
  }

  lemma OneMoreDigit(val: nat, digits: nat, c: char)
    requires Partial(val, digits) && IsDigit(c) && !(digits == 1 && val == 0)
    requires 10 * val + (c as int - '0' as int) <= 255
    ensures var v := 10 * val + (c as int - '0' as int); Partial(v, digits + 1) && ReadSoFar(v, digits + 1) == ReadSoFar(val, digits) + [c]
  {
    var d := c as int - '0' as int;
    assert Digit(d) == c;
    if digits > 0 {
      assert val > 0;
      var v := 10 * val + d;
      assert v / 10 == val && v % 10 == d;
    }
  }

  /** Fields read to the end spell the text. */
  lemma {:induction false} FieldsSpell(s: string, val: nat, digits: nat, fields: seq<nat>, f: seq<nat>)
    requires Partial(val, digits) && |fields| <= 3 && ParseFields(s, val, digits, fields) == Some(f)
    ensures |f| == 4 && fields <= f && forall k :: |fields| <= k < 4 ==> f[k] < 256
    ensures var last := f[|fields|..]; (forall k :: 0 <= k < |last| ==> last[k] < 256) && ReadSoFar(val, digits) + s == Dotted(last)
    decreases |s|
  {
    hide Dec, Partial;
    if s == "" {
      assert f == fields + [val] && f[|fields|..] == [val];
      NoneSoFar(val, digits);
    } else if IsDigit(s[0]) {
      OneMoreDigit(val, digits, s[0]);
      FieldsSpell(s[1..], 10 * val + (s[0] as int - '0' as int), digits + 1, fields, f);
      assert ReadSoFar(val, digits) + [s[0]] + s[1..] == ReadSoFar(val, digits) + s;
    } else {
      NewField();
      FieldsSpell(s[1..], 0, 0, fields + [val], f);
      NoneSoFar(val, digits);
      var last := f[|fields|..];
      assert last[0] == val && last[1..] == f[|fields| + 1..];
      assert s == "." + s[1..] && "" + s[1..] == s[1..];
    }
  }

  lemma NewField()
    ensures Partial(0, 0)
  {
  }

  lemma NoneSoFar(val: nat, digits: nat)
    requires Partial(val, digits)
    ensures val < 256
  {
  }

  lemma ValueOfBytes(a: nat, b: nat, c: nat, d: nat)
    requires a < 256 && b < 256 && c < 256 && d < 256
    ensures var v := 0x100_0000 * a + 0x1_0000 * b + 256 * c + d;
      v < TWO32 && Byte(v, 0) == a && Byte(v, 1) == b && Byte(v, 2) == c && Byte(v, 3) == d
  {
    var v := 0x100_0000 * a + 0x1_0000 * b + 256 * c + d;
    assert v / 0x100_0000 == a;
    assert v / 0x1_0000 == 256 * a + b;
    assert v / 256 == 0x1_0000 * a + 256 * b + c;
  }

  lemma FourDotted(f: seq<nat>)
    requires |f| == 4 && forall k :: 0 <= k < 4 ==> f[k] < 256
    ensures Dotted(f) == Dec(f[0]) + "." + Dec(f[1]) + "." + Dec(f[2]) + "." + Dec(f[3])
  {
    hide Dec;
    var t3, t2, t1 := f[3..], f[2..], f[1..];
    assert t3 == [f[3]] && t2[1..] == t3 && t1[1..] == t2;
    assert Dotted(t3) == Dec(f[3]);
    assert Dotted(t2) == Dec(f[2]) + "." + Dec(f[3]);
    assert Dotted(t1) == Dec(f[1]) + "." + Dotted(t2);
  }

  /** A text is an IPv4 address exactly when it is how that address is printed: no leading zeros, nothing left out. */
  lemma QuadExactly(s: string, v: U32)
    ensures ParseQuad(s) == Some(v) <==> s == Quad(v)
  {
    hide ParseFields, Dec, Byte;
    QuadRoundTrip(v);
    if ParseQuad(s) == Some(v) {
      var f := ParseFields(s, 0, 0, []).value;
      NewField();
      FieldsSpell(s, 0, 0, [], f);
      assert f[0..] == f && "" + s == s;
      FourDotted(f);
      ValueOfBytes(f[0], f[1], f[2], f[3]);
    }
  }

  /** A colon comes before every dot: the text is taken for IPv6. */
  ghost predicate ColonFirst(s: string) {
    exists i :: 0 <= i < |s| && s[i] == ':' && forall j :: 0 <= j < i ==> s[j] != '.'
  }

  /** An address is a printed IPv4 address, or IPv6 text for which v6 knows one. */
  lemma AddressExactly(v6: string -> Option<U32>, s: string, v: U32)
    ensures ParseAddress(v6, s) == Some(v) <==> if ColonFirst(s) then v6(s) == Some(v) else s == Quad(v)
  {
    hide Quad, ParseQuad, IndexOf;
    IndexOfFacts(s, ':');
    IndexOfFacts(s, '.');
    QuadExactly(s, v);
    var colon, dot := IndexOf(s, ':'), IndexOf(s, '.');
    if colon.Some? && (dot.None? || colon.value < dot.value) {
      assert s[colon.value] == ':';
      assert ColonFirst(s);
    } else if i :| 0 <= i < |s| && s[i] == ':' && forall j :: 0 <= j < i ==> s[j] != '.' {
      assert false;
    }
  }

  // ---- reading a block ----

  /** The value of a text of digits, the last digit counting least. */
  function Decimal(s: string): nat {
    if s == "" then 0 else 10 * Decimal(s[..|s| - 1]) + (if IsDigit(s[|s| - 1]) then s[|s| - 1] as int - '0' as int else 0)
  }

  predicate Digits(s: string) {
    forall k :: 0 <= k < |s| ==> IsDigit(s[k])
  }

  lemma {:induction false} ParseDecMore(s: string, c: char, val: nat)
    ensures ParseDec(s + [c], val) ==
      match ParseDec(s, val) case None => None case Some(n) => if IsDigit(c) then Some(10 * n + (c as int - '0' as int)) else None
  {
    if s == "" {
      assert "" + [c] == [c] && [c][1..] == "";
      assert ParseDec([c], val) == if IsDigit(c) then ParseDec("", 10 * val + (c as int - '0' as int)) else None;
    } else {
      assert (s + [c])[1..] == s[1..] + [c];
      if IsDigit(s[0]) {
        ParseDecMore(s[1..], c, 10 * val + (s[0] as int - '0' as int));
      }
    }
  }

  /** A prefix length is read as the value of its digits, leading zeros or not. */
  lemma {:induction false} DecimalExactly(s: string)
    ensures ParseDec(s, 0) == if Digits(s) then Some(Decimal(s)) else None
    decreases |s|
  {
    if s != "" {
      var init, c := s[..|s| - 1], s[|s| - 1];
      DecimalExactly(init);
      ParseDecMore(init, c, 0);
      assert s == init + [c];
      assert Digits(s) <==> Digits(init) && IsDigit(c);
    }
  }

  /**
   * An address and a length are read as start..end exactly when that is the CIDR block of
   * this length around the address, which may be any address of the block.
   */
  lemma BlockExactly(addr: string, len: string, start: U32, end: U32)
    ensures ParseCidr(addr, len) == Some((start, end)) <==>
      exists a: U32 :: addr == Quad(a) && BlockAround(a, len, start, end)
  {
    hide Quad, ParseQuad, ParseDec;
    DecimalExactly(len);
    if exists a: U32 :: addr == Quad(a) && BlockAround(a, len, start, end) {
      var a: U32 :| addr == Quad(a) && BlockAround(a, len, start, end);
      QuadExactly(addr, a);
      MaskIsBlock(a, Decimal(len), start, end);
    }
    if ParseCidr(addr, len) == Some((start, end)) {
      var a := ParseQuad(addr).value;
      QuadExactly(addr, a);
      MaskIsBlock(a, Decimal(len), start, end);
    }
  }

  ghost predicate BlockAround(a: U32, len: string, start: U32, end: U32) {
    len != "" && Digits(len) && Decimal(len) <= 32 && start <= a <= end && IsBlock(start, end, Decimal(len))
  }

  /** Masking an address gives the first and the last address of its block. */
  lemma MaskIsBlock(a: U32, n: nat, start: U32, end: U32)
    requires n <= 32
    ensures var mask := Shl32(MAX32, 32 - n); var lo := And(a, mask);
      lo < TWO32 && Or(lo, Not32(mask)) < TWO32 &&
      ((start == lo && end == Or(lo, Not32(mask))) <==> start <= a <= end && IsBlock(start, end, n))
  {
    hide And, Or, Shl32, Pow2;
    var k := 32 - n;
    var m, lo := Pow2(k), And(a, Shl32(MAX32, k));
    MaskedBounds(a, k);
    MaskedStart(a, k);
    LowPart(a, m);
    FilledEnd(lo, k);
    AlignedRange(lo, lo + m - 1, n);
    SameBlock(lo, a, m);
    if start <= a <= end && IsBlock(start, end, n) {
      BlockIsAligned(start, end, n);
      SameStart(a, m, start);
    }
  }

  lemma LowPart(a: nat, m: nat)
    requires m > 0
    ensures 0 <= a - a % m <= a < a - a % m + m && (a - a % m) % m == 0
  {
    assert a == m * (a / m) + a % m;
    ModUnique(a - a % m, m, a / m, 0);
  }

  lemma SameStart(a: nat, m: nat, start: nat)
    requires m > 0 && start % m == 0 && start <= a <= start + m - 1
    ensures start == a - a % m
  {
    SameBlock(start, a, m);
    assert a == m * (a / m) + a % m && start == m * (start / m);
  }

  // ---- reading a network field ----

  /** The first c of the text is at i. */
  predicate FirstAt(s: string, c: char, i: int) {
    0 <= i < |s| && s[i] == c && forall k :: 0 <= k < i ==> s[k] != c
  }

  /** The text is this address. */
  ghost predicate Names(v6: string -> Option<U32>, s: string, v: U32) {
    if ColonFirst(s) then v6(s) == Some(v) else s == Quad(v)
  }

  ghost predicate BlockField(s: string, i: int, lo: U32, hi: U32) {
    FirstAt(s, '/', i) && exists a: U32 :: s[..i] == Quad(a) && BlockAround(a, s[i + 1..], lo, hi)
  }

  ghost predicate RangeField(v6: string -> Option<U32>, s: string, i: int, lo: U32, hi: U32) {
    FirstAt(s, '-', i) &&
    ((Names(v6, GoTrim(s[..i]), lo) && Names(v6, GoTrim(s[i + 1..]), hi)) ||
     (Names(v6, GoTrim(s[..i]), hi) && Names(v6, GoTrim(s[i + 1..]), lo)))
  }

  /**
   * A network field, trimmed, is read as lo..hi exactly when it is the block of that range,
   * or its two ends in either order with white space around them, or a single address;
   * a slash makes it a block, and otherwise a hyphen a range.
   */
  lemma FieldExactly(v6: string -> Option<U32>, t: string, lo: U32, hi: U32)
    ensures ParseNetworkField(v6, t) == Some((lo, hi)) <==>
      var s := GoTrim(t);
      if '/' in s then exists i :: BlockField(s, i, lo, hi)
      else if '-' in s then lo <= hi && exists i :: RangeField(v6, s, i, lo, hi)
      else lo == hi && Names(v6, s, lo)
  {
    var s := GoTrim(t);
    IndexOfFacts(s, '/');
    IndexOfFacts(s, '-');
    hide Trim, IndexOf, ParseCidr, ParseAddress, BlockField, RangeField, Quad, ColonFirst;
    if '/' in s {
      SlashField(s, IndexOf(s, '/').value, lo, hi);
    } else if '-' in s {
      HyphenField(v6, s, IndexOf(s, '-').value, lo, hi);
    } else {
      AddressExactly(v6, s, lo);
      EmptyNames(v6, lo);
    }
  }

  lemma EmptyNames(v6: string -> Option<U32>, v: U32)
    ensures !Names(v6, "", v)
  {
    QuadChars(v);
  }

  lemma SlashField(s: string, k: nat, lo: U32, hi: U32)
    requires FirstAt(s, '/', k)
    ensures ParseCidr(s[..k], s[k + 1..]) == Some((lo, hi)) <==> exists i :: BlockField(s, i, lo, hi)
  {
    hide ParseCidr, Quad, BlockAround;
    BlockExactly(s[..k], s[k + 1..], lo, hi);
    if ParseCidr(s[..k], s[k + 1..]) == Some((lo, hi)) {
      assert BlockField(s, k, lo, hi);
    }
    if i :| BlockField(s, i, lo, hi) {
      assert i == k;
    }
  }

  lemma HyphenField(v6: string -> Option<U32>, s: string, k: nat, lo: U32, hi: U32)
    requires FirstAt(s, '-', k)
    ensures var a, b := ParseAddress(v6, GoTrim(s[..k])), ParseAddress(v6, GoTrim(s[k + 1..]));
      (a.Some? && b.Some? && (lo, hi) == (if a.value > b.value then (b.value, a.value) else (a.value, b.value))) <==>
      lo <= hi && exists i :: RangeField(v6, s, i, lo, hi)
  {
    hide ParseAddress, Trim, Names;
    var l, r := GoTrim(s[..k]), GoTrim(s[k + 1..]);
    NamesExactly(v6, l, lo);
    NamesExactly(v6, l, hi);
    NamesExactly(v6, r, lo);
    NamesExactly(v6, r, hi);
    var a, b := ParseAddress(v6, l), ParseAddress(v6, r);
    if a.Some? && b.Some? && (lo, hi) == (if a.value > b.value then (b.value, a.value) else (a.value, b.value)) {
      assert RangeField(v6, s, k, lo, hi);
    }
    if i :| RangeField(v6, s, i, lo, hi) {
      assert i == k;
    }
  }

  lemma NamesExactly(v6: string -> Option<U32>, s: string, v: U32)
    ensures Names(v6, s, v) <==> ParseAddress(v6, s) == Some(v)
  {
    hide ParseAddress, Quad, ColonFirst;
    AddressExactly(v6, s, v);
  }
}
