/** IPv4 networks as text: addresses, CIDR blocks and address ranges. */
module Cidr {
  import opened Common
  import opened Text
  import opened Bits

  // ---- printing ----

  function Digit(d: nat): char
    requires d < 10
  {
    ('0' as int + d) as char
  }

  /** A number below 1000 without leading zeros. */
  function Dec(n: nat): string
    requires n < 1000
  {
    if n < 10 then [Digit(n)]
    else if n < 100 then [Digit(n / 10), Digit(n % 10)]
    else [Digit(n / 100), Digit(n / 10 % 10), Digit(n % 10)]
  }

  /** Fills a two-byte buffer from its end. */
  method Itoa(n: nat) returns (s: string)
    requires n < 100
    ensures s == Dec(n)
  {
    if n == 0 {
      return "0";
    }
    var b := new char[2];
    var i, m := 2, n;
    while m > 0
      invariant 0 <= i <= 2
      invariant (i == 2 && m == n) || (i == 1 && m == n / 10 && b[1] == Digit(n % 10)) ||
                (i == 0 && m == 0 && n >= 10 && b[1] == Digit(n % 10) && b[0] == Digit(n / 10))
      invariant i == 1 ==> m < 10
      decreases m
    {
      i := i - 1;
      b[i] := Digit(m % 10);
      m := m / 10;
    }
    s := b[i..];
  }

  /** One of the four bytes of an address, the first one being number 0. */
  function Byte(v: U32, i: nat): nat
    requires i < 4
    ensures Byte(v, i) < 256
  {
    if i == 0 then v / 0x100_0000 else if i == 1 then v / 0x1_0000 % 256 else if i == 2 then v / 256 % 256 else v % 256
  }

  /** The dotted quad of an address. */
  function Quad(v: U32): string {
    Dec(Byte(v, 0)) + "." + Dec(Byte(v, 1)) + "." + Dec(Byte(v, 2)) + "." + Dec(Byte(v, 3))
  }

  function FormatNetwork(start: U32, end: U32): string {
    if start == end then Quad(start) else Quad(start) + "-" + Quad(end)
  }

  /** The prefix length of start..end when it is one CIDR block. */
  function ExactPrefixLen(start: U32, end: U32): Option<int> {
    if start > end then None
    else
      var span := Wrap32(end - start + 1);
      if span == 0 || And(span, span - 1) != 0 then None
      else
        var zeros := TrailingZeros(span);
        var mask := Shl32(MAX32, zeros);
        if And(start, mask) != start || Or(start, Not32(mask)) != end then None else Some(32 - zeros)
  }

  function FormatNetworkPreferCidr(start: U32, end: U32): string {
    if start == end then Quad(start)
    else match ExactPrefixLen(start, end)
      case Some(p) =>
        PrefixIsAligned(start, end);
        Quad(start) + "/" + Dec(p)
      case None => FormatNetwork(start, end)
  }

  // ---- parsing ----

  /**
   * The fields of a dotted quad: val and digits belong to the field being read,
   * fields to the ones before it.
   */
  function ParseFields(s: string, val: nat, digits: nat, fields: seq<nat>): Option<seq<nat>>
    decreases |s|
  {
    if s == "" then (if digits > 0 && |fields| == 3 then Some(fields + [val]) else None)
    else if IsDigit(s[0]) then
      var v := 10 * val + (s[0] as int - '0' as int);
      if (digits == 1 && val == 0) || v > 255 then None else ParseFields(s[1..], v, digits + 1, fields)
    else if s[0] == '.' then
      if digits == 0 || |fields| == 3 then None else ParseFields(s[1..], 0, 0, fields + [val])
    else None
  }

  function ParseQuad(s: string): Option<U32> {
    match ParseFields(s, 0, 0, [])
    case None => None
    case Some(f) =>
      if |f| == 4 && forall k :: 0 <= k < 4 ==> f[k] < 256
      then Some(0x100_0000 * f[0] + 0x1_0000 * f[1] + 256 * f[2] + f[3]) else None
  }

  function IndexOf(s: string, c: char): (r: Option<nat>)
    ensures r.Some? ==> r.value < |s|
  {
    if s == "" then None else if s[0] == c then Some(0)
    else match IndexOf(s[1..], c) case None => None case Some(k) => Some(k + 1)
  }

  lemma {:induction false} IndexOfFacts(s: string, c: char)
    ensures match IndexOf(s, c)
      case None => forall k :: 0 <= k < |s| ==> s[k] != c
      case Some(i) => i < |s| && s[i] == c && forall k :: 0 <= k < i ==> s[k] != c
  {
    if s != "" && s[0] != c {
      IndexOfFacts(s[1..], c);
      assert forall k :: 1 <= k < |s| ==> s[k] == s[1..][k - 1];
    }
  }

  /** Text with a colon is IPv6; v6 gives its IPv4 address when it maps one. */
  function ParseAddress(v6: string -> Option<U32>, s: string): Option<U32> {
    var colon := IndexOf(s, ':');
    var dot := IndexOf(s, '.');
    if colon.Some? && (dot.None? || colon.value < dot.value) then v6(s) else ParseQuad(s)
  }

  /** A decimal number without sign; leading zeros are fine. */
  function ParseDec(s: string, val: nat): Option<nat> {
    if s == "" then Some(val)
    else if IsDigit(s[0]) then ParseDec(s[1..], 10 * val + (s[0] as int - '0' as int))
    else None
  }

  /** Start and end of a CIDR block given by any of its addresses. */
  function ParseCidr(addr: string, len: string): Option<(U32, U32)> {
    match ParseQuad(addr)
    case None => None
    case Some(a) =>
      if len == "" then None
      else match ParseDec(len, 0)
        case None => None
        case Some(n) =>
          if n > 32 then None
          else
            var mask := Shl32(MAX32, 32 - n);
            var start := And(a, mask);
            MaskedBounds(a, 32 - n);
            Some((start, Or(start, Not32(mask))))
  }

  function GoTrim(s: string): string {
    Trim(GoSpace, s)
  }

  /** A network field: a CIDR block, a range or a single address. */
  function ParseNetworkField(v6: string -> Option<U32>, network: string): Option<(U32, U32)> {
    var s := GoTrim(network);
    if s == "" then None
    else
      var slash := IndexOf(s, '/');
      var dash := IndexOf(s, '-');
      if slash.Some? then
        ParseCidr(s[..slash.value], s[slash.value + 1..])
      else if dash.Some? then
        match (ParseAddress(v6, GoTrim(s[..dash.value])), ParseAddress(v6, GoTrim(s[dash.value + 1..])))
        case (Some(a), Some(b)) => Some(if a > b then (b, a) else (a, b))
        case _ => None
      else
        match ParseAddress(v6, s)
        case Some(v) => Some((v, v))
        case None => None
  }

  // ---- exactly the CIDR blocks have a prefix length ----

  /** The first p bits of an address. */
  function PrefixBits(x: U32, p: nat): int
    requires p <= 32
  {
    x / Pow2(32 - p)
  }

  /** start..end is the set of all addresses that share start's first p bits (section 3.1 of RFC 4632). */
  ghost predicate IsBlock(start: U32, end: U32, p: nat) {
    p <= 32 && forall x: U32 :: start <= x <= end <==> PrefixBits(x, p) == PrefixBits(start, p)
  }

  lemma MaskValue(k: nat)
    requires k <= 32
    ensures Pow2(k) <= TWO32 == Pow2(32)
    ensures Shl32(MAX32, k) == (if k == 32 then 0 else TWO32 - Pow2(k))
  {
    Pow2At32();
    Pow2Sum(k, 32 - k);
    if k < 32 {
      Pow2Grows(k, 32);
      assert MAX32 * Pow2(k) == TWO32 * (Pow2(k) - 1) + (TWO32 - Pow2(k));
      ModUnique(MAX32 * Pow2(k), TWO32, Pow2(k) - 1, TWO32 - Pow2(k));
    } else {
      assert MAX32 * TWO32 == TWO32 * MAX32 + 0;
      ModUnique(MAX32 * TWO32, TWO32, MAX32, 0);
    }
  }

  lemma AndZero(a: nat)
    ensures And(a, 0) == 0
  {
  }

  lemma MaskedStart(x: U32, k: nat)
    requires k <= 32
    ensures And(x, Shl32(MAX32, k)) == x - x % Pow2(k)
  {
    MaskValue(k);
    if k == 32 {
      AndZero(x);
    } else {
      AndMask(32, k, x);
    }
  }

  lemma FilledEnd(x: U32, k: nat)
    requires k <= 32 && x % Pow2(k) == 0
    ensures Or(x, Not32(Shl32(MAX32, k))) == x + Pow2(k) - 1
  {
    MaskValue(k);
    OrDisjoint(k, x, Pow2(k) - 1);
  }

  lemma MaskedBounds(x: U32, k: nat)
    requires k <= 32
    ensures var start := And(x, Shl32(MAX32, k)); start < TWO32 && Or(start, Not32(Shl32(MAX32, k))) < TWO32
  {
    hide And, Or, Shl32, Pow2;
    MaskedStart(x, k);
    MaskValue(k);
    var m := Pow2(k);
    assert x == m * (x / m) + x % m;
    var start := x - x % m;
    ModUnique(start, m, x / m, 0);
    FilledEnd(start, k);
    Pow2Sum(k, 32 - k);
    BelowMultiple(x, m, Pow2(32 - k));
  }

  lemma SameBlock(start: nat, x: nat, m: nat)
    requires m > 0 && start % m == 0
    ensures start <= x <= start + m - 1 <==> x / m == start / m
  {
    assert start == m * (start / m);
    assert x == m * (x / m) + x % m;
    var t: int := x / m - start / m;
    assert m * t == m * (x / m) - m * (start / m);
    if t != 0 {
      NonzeroMultiple(m, t);
    }
  }

  lemma AlignedRange(start: U32, end: U32, p: nat)
    requires p <= 32 && start % Pow2(32 - p) == 0 && end == start + Pow2(32 - p) - 1
    ensures IsBlock(start, end, p)
  {
    hide Pow2;
    forall x: U32
      ensures start <= x <= end <==> PrefixBits(x, p) == PrefixBits(start, p)
    {
      SameBlock(start, x, Pow2(32 - p));
    }
  }

  /** The first and the last address of a block, tested against its definition. */
  lemma BlockEnds(start: U32, end: U32, p: nat, lo: U32, hi: U32)
    requires start <= end && IsBlock(start, end, p)
    requires PrefixBits(lo, p) == PrefixBits(start, p) == PrefixBits(hi, p) && lo <= start
    requires PrefixBits(end, p) == PrefixBits(start, p) ==> end <= hi
    ensures start == lo && end == hi
  {
    assert start <= lo <= end;
    assert start <= hi <= end;
    assert PrefixBits(end, p) == PrefixBits(start, p);
  }

  /** A block starts at a multiple of its size and has exactly that size. */
  lemma BlockIsAligned(start: U32, end: U32, p: nat)
    requires start <= end && p <= 32 && IsBlock(start, end, p)
    ensures start % Pow2(32 - p) == 0 && end == start + Pow2(32 - p) - 1
  {
    hide Pow2, IsBlock;
    var m := Pow2(32 - p);
    var q := start / m;
    var lo := m * q;
    var hi := lo + m - 1;
    assert start == lo + start % m;
    ModUnique(lo, m, q, 0);
    ModUnique(hi, m, q, m - 1);
    MaskValue(32 - p);
    Pow2Sum(32 - p, p);
    BelowMultiple(start, m, Pow2(p));
    SameBlock(lo, end, m);
    BlockEnds(start, end, p, lo, hi);
  }

  /** The block of x below a multiple of m ends below it too. */
  lemma BelowMultiple(x: nat, m: nat, n: nat)
    requires m > 0 && x < m * n
    ensures m * (x / m) + m <= m * n
  {
    assert x == m * (x / m) + x % m;
    var t: int := n - x / m;
    assert m * t == m * n - m * (x / m);
    if t <= 0 {
      MulMonotone(m, t, 0);
      assert false;
    }
    MulMonotone(m, 1, t);
  }

  lemma SpanOfPrefix(start: U32, end: U32, k: nat)
    requires k < 32 && start % Pow2(k) == 0 && end == start + Pow2(k) - 1
    ensures ExactPrefixLen(start, end) == Some(32 - k)
  {
    hide And, Or, TrailingZeros, Shl32, Pow2;
    MaskValue(k);
    Pow2Grows(k, 32);
    var span := Pow2(k);
    assert Wrap32(end - start + 1) == span;
    TrailingZerosOfPow2(k);
    PowerOfTwoTest(span);
    MaskedStart(start, k);
    FilledEnd(start, k);
  }

  lemma PrefixIsAligned(start: U32, end: U32)
    requires ExactPrefixLen(start, end).Some?
    ensures var p := ExactPrefixLen(start, end).value;
      1 <= p <= 32 && start <= end && start % Pow2(32 - p) == 0 && end == start + Pow2(32 - p) - 1
  {
    hide And, Or, TrailingZeros, Shl32, Pow2;
    var span := Wrap32(end - start + 1);
    PowerOfTwoTest(span);
    var k := TrailingZeros(span);
    SmallPower(span, k);
    MaskedStart(start, k);
    MaskValue(k);
  }

  /** The number of zeros of a 32-bit power of two. */
  lemma SmallPower(span: U32, k: nat)
    requires span == Pow2(k)
    ensures k < 32
  {
    MaskValue(32);
    if k > 32 {
      Pow2Grows(32, k);
      assert false;
    }
  }

  /**
   * exactPrefixLen answers p exactly when the range is the CIDR block of prefix
   * length p; the block of length 0, the whole space, is never recognised.
   */
  lemma PrefixLenIsExact(start: U32, end: U32, p: int)
    ensures ExactPrefixLen(start, end) == Some(p) <==> 1 <= p <= 32 && start <= end && IsBlock(start, end, p)
  {
    hide And, Or, TrailingZeros, Shl32, Pow2, ExactPrefixLen;
    if ExactPrefixLen(start, end) == Some(p) {
      PrefixIsAligned(start, end);
      AlignedRange(start, end, p);
    }
    if 1 <= p <= 32 && start <= end && IsBlock(start, end, p) {
      BlockIsAligned(start, end, p);
      SpanOfPrefix(start, end, 32 - p);
    }
  }

  // ---- reading a printed network ----

  predicate NetChar(c: char) {
    IsDigit(c) || c == '.'
  }

  lemma {:induction false} FieldDigit(d: nat, rest: string, val: nat, digits: nat, fields: seq<nat>)
    requires d < 10 && 10 * val + d <= 255 && !(digits == 1 && val == 0)
    ensures ParseFields([Digit(d)] + rest, val, digits, fields) == ParseFields(rest, 10 * val + d, digits + 1, fields)
  {
    var s := [Digit(d)] + rest;
    assert s[0] == Digit(d) && s[1..] == rest;
  }

  lemma FieldDec(n: nat, rest: string, fields: seq<nat>)
    requires n < 256
    ensures ParseFields(Dec(n) + rest, 0, 0, fields) == ParseFields(rest, n, |Dec(n)|, fields)
  {
    hide ParseFields;
    if n < 10 {
      FieldDigit(n, rest, 0, 0, fields);
    } else if n < 100 {
      assert Dec(n) + rest == [Digit(n / 10)] + ([Digit(n % 10)] + rest);
      FieldDigit(n / 10, [Digit(n % 10)] + rest, 0, 0, fields);
      FieldDigit(n % 10, rest, n / 10, 1, fields);
    } else {
      var u := [Digit(n % 10)] + rest;
      assert Dec(n) + rest == [Digit(n / 100)] + ([Digit(n / 10 % 10)] + u);
      FieldDigit(n / 100, [Digit(n / 10 % 10)] + u, 0, 0, fields);
      FieldDigit(n / 10 % 10, u, n / 100, 1, fields);
      FieldDigit(n % 10, rest, n / 10, 2, fields);
    }
  }

  lemma FieldDot(n: nat, rest: string, fields: seq<nat>)
    requires n < 256 && |fields| < 3
    ensures ParseFields(Dec(n) + "." + rest, 0, 0, fields) == ParseFields(rest, 0, 0, fields + [n])
  {
    FieldDec(n, "." + rest, fields);
    assert Dec(n) + "." + rest == Dec(n) + ("." + rest);
    assert ("." + rest)[1..] == rest;
  }

  lemma FieldsOf(a: nat, b: nat, c: nat, d: nat)
    requires a < 256 && b < 256 && c < 256 && d < 256
    ensures ParseFields(Dec(a) + "." + Dec(b) + "." + Dec(c) + "." + Dec(d), 0, 0, []) == Some([a, b, c, d])
  {
    hide Dec;
    var t3 := Dec(d);
    var t2 := Dec(c) + "." + t3;
    var t1 := Dec(b) + "." + t2;
    assert Dec(a) + "." + Dec(b) + "." + Dec(c) + "." + Dec(d) == Dec(a) + "." + t1;
    FieldDot(a, t1, []);
    FieldDot(b, t2, [a]);
    FieldDot(c, t3, [a, b]);
    assert [] + [a] == [a] && [a] + [b] == [a, b] && [a, b] + [c] == [a, b, c] && [a, b, c] + [d] == [a, b, c, d];
    FieldDec(d, "", [a, b, c]);
    assert Dec(d) + "" == Dec(d);
    DecNotEmpty(d);
  }

  lemma DecNotEmpty(n: nat)
    requires n < 1000
    ensures |Dec(n)| > 0 && forall k :: 0 <= k < |Dec(n)| ==> IsDigit(Dec(n)[k])
  {
  }

  lemma BytesOf(v: U32)
    ensures 0x100_0000 * Byte(v, 0) + 0x1_0000 * Byte(v, 1) + 256 * Byte(v, 2) + Byte(v, 3) == v
  {
    var a, b := v / 256, v / 0x1_0000;
    assert a / 256 == b && b / 256 == v / 0x100_0000;
  }

  /** A printed address reads back as itself. */
  lemma QuadRoundTrip(v: U32)
    ensures ParseQuad(Quad(v)) == Some(v)
  {
    hide ParseFields, Dec, Byte;
    FieldsOf(Byte(v, 0), Byte(v, 1), Byte(v, 2), Byte(v, 3));
    BytesOf(v);
  }

  lemma QuadChars(v: U32)
    ensures Quad(v) != "" && forall k :: 0 <= k < |Quad(v)| ==> NetChar(Quad(v)[k])
    ensures IsDigit(Quad(v)[0]) && IsDigit(Quad(v)[|Quad(v)| - 1])
  {
    hide Dec, Byte;
    DecNotEmpty(Byte(v, 0));
    DecNotEmpty(Byte(v, 1));
    DecNotEmpty(Byte(v, 2));
    DecNotEmpty(Byte(v, 3));
  }

  lemma NoIndex(s: string, c: char)
    requires forall k :: 0 <= k < |s| ==> s[k] != c
    ensures IndexOf(s, c).None?
  {
    IndexOfFacts(s, c);
  }

  lemma IndexAt(a: string, c: char, b: string)
    requires forall k :: 0 <= k < |a| ==> a[k] != c
    ensures IndexOf(a + [c] + b, c) == Some(|a|)
  {
    var s := a + [c] + b;
    IndexOfFacts(s, c);
    assert s[|a|] == c;
    assert forall k :: 0 <= k < |a| ==> s[k] == a[k];
  }

  lemma AddressOfQuad(v6: string -> Option<U32>, v: U32)
    ensures GoTrim(Quad(v)) == Quad(v) && ParseAddress(v6, Quad(v)) == Some(v)
  {
    hide Quad, ParseQuad;
    QuadChars(v);
    QuadRoundTrip(v);
    assert Trimmed(GoSpace, Quad(v));
    NoIndex(Quad(v), ':');
  }

  lemma DecDigits(n: nat)
    requires n < 100
    ensures ParseDec(Dec(n), 0) == Some(n)
  {
    var s := Dec(n);
    if n < 10 {
      assert s[1..] == "";
    } else {
      assert s[1..] == [Digit(n % 10)] && s[1..][1..] == "";
      assert ParseDec(s, 0) == ParseDec(s[1..], n / 10);
      assert ParseDec(s[1..], n / 10) == ParseDec("", n);
    }
  }

  lemma CidrReadsBack(start: U32, end: U32, p: int)
    requires ExactPrefixLen(start, end) == Some(p)
    ensures 1 <= p <= 32 && ParseCidr(Quad(start), Dec(p)) == Some((start, end))
  {
    hide Quad, ParseQuad, Dec, ParseDec, And, Or, Shl32, ExactPrefixLen, Pow2;
    PrefixIsAligned(start, end);
    QuadRoundTrip(start);
    DecDigits(p);
    DecNotEmpty(p);
    MaskedStart(start, 32 - p);
    FilledEnd(start, 32 - p);
  }

  /**
   * Every printed network reads back as the range it was printed from; a range
   * given the wrong way round comes back in order.
   */
  lemma NetworkRoundTrip(v6: string -> Option<U32>, start: U32, end: U32)
    ensures ParseNetworkField(v6, FormatNetworkPreferCidr(start, end)) ==
      Some(if start <= end then (start, end) else (end, start))
  {
    hide Quad, ParseQuad, Dec, ParseAddress, ExactPrefixLen, IndexOf, Trim, ParseCidr;
    QuadChars(start);
    QuadChars(end);
    AddressOfQuad(v6, start);
    AddressOfQuad(v6, end);
    var s := FormatNetworkPreferCidr(start, end);
    if start == end {
      NoIndex(s, '/');
      NoIndex(s, '-');
    } else if ExactPrefixLen(start, end).Some? {
      var p := ExactPrefixLen(start, end).value;
      PrefixIsAligned(start, end);
      DecNotEmpty(p);
      CidrReadsBack(start, end, p);
      TrimmedJoin(Quad(start), '/', Dec(p));
      IndexAt(Quad(start), '/', Dec(p));
      assert s == Quad(start) + ['/'] + Dec(p);
      assert s[..|Quad(start)|] == Quad(start) && s[|Quad(start)| + 1..] == Dec(p);
    } else {
      TrimmedJoin(Quad(start), '-', Quad(end));
      assert s == Quad(start) + ['-'] + Quad(end);
      NoIndex(s, '/');
      IndexAt(Quad(start), '-', Quad(end));
      assert s[..|Quad(start)|] == Quad(start) && s[|Quad(start)| + 1..] == Quad(end);
    }
  }

  lemma TrimmedJoin(a: string, c: char, b: string)
    requires a != "" && b != "" && IsDigit(a[0]) && IsDigit(b[|b| - 1])
    ensures GoTrim(a + [c] + b) == a + [c] + b
  {
    var s := a + [c] + b;
    assert s[0] == a[0] && s[|s| - 1] == b[|b| - 1];
    assert Trimmed(GoSpace, s);
  }
}
