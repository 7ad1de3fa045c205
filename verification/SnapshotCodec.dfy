/** The binary file format of a GeoIP snapshot. */
module SnapshotCodec {
  import opened Common
  import opened GeoModel

  datatype DecodeError = Truncated | BadMagic | BadVersion | BadChecksum | UnexpectedEnd | TrailingBytes

  // ---- the format: what is written ----

  function Pow256(w: nat): nat {
    if w == 0 then 1 else 256 * Pow256(w - 1)
  }

  /** n in little-endian order on w bytes; higher bytes are cut off. */
  function Little(n: nat, w: nat): (b: Bytes)
    ensures |b| == w
  {
    if w == 0 then [] else [n % 256] + Little(n / 256, w - 1)
  }

  function Value(b: Bytes): nat {
    if b == [] then 0 else b[0] + 256 * Value(b[1..])
  }

  function Put32(n: nat): Bytes {
    Little(n % TWO32, 4)
  }

  function Put64(n: U64): Bytes {
    Little(n, 8)
  }

  function PutString(s: Bytes): Bytes {
    Put32(|s|) + s
  }

  function PutStrings(v: seq<Bytes>): Bytes {
    if v == [] then [] else PutString(v[0]) + PutStrings(v[1..])
  }

  function PutDict(v: seq<Bytes>): Bytes {
    Put32(|v|) + PutStrings(v)
  }

  function PutRow(r: RangeRow): Bytes {
    Put32(r.start) + (Put32(r.end) + (Put32(r.countryId) + (Put32(r.regionId) + (Put32(r.cityId) + (Put64(r.lat) + Put64(r.lon))))))
  }

  function PutRows(rows: seq<RangeRow>): Bytes {
    if rows == [] then [] else PutRow(rows[0]) + PutRows(rows[1..])
  }

  function PutStamp(s: SourceStamp): Bytes {
    Put64(s.count) + (Put32(s.minStart) + (Put32(s.maxEnd) + (Put64(s.sumStart) + (Put64(s.sumEnd) + Put64(s.xorSpan)))))
  }

  function PutSnapshot(s: Snapshot): Bytes {
    PutDict(s.countries) + (PutDict(s.regions) + (PutDict(s.cities) + (Put32(|s.rows|) + PutRows(s.rows))))
  }

  function PutPayload(s: Snapshot, stamp: SourceStamp): Bytes {
    PutStamp(stamp) + PutSnapshot(s)
  }

  /** The magic letters NMGS. */
  const MAGIC: Bytes := [78, 77, 71, 83]

  const VERSION: U32 := 1

  /** The whole file; crc stands for the CRC-32 of the payload. */
  function PutFile(crc: Bytes -> U32, s: Snapshot, stamp: SourceStamp): Bytes {
    var payload := PutPayload(s, stamp);
    MAGIC + Put32(VERSION) + payload + Put32(crc(payload))
  }

  /** Lengths that survive being stored in 32 bits. */
  predicate FitsDict(v: seq<Bytes>) {
    |v| < TWO32 && forall k :: 0 <= k < |v| ==> |v[k]| < TWO32
  }

  predicate Fits(s: Snapshot) {
    FitsDict(s.countries) && FitsDict(s.regions) && FitsDict(s.cities) && |s.rows| < TWO32
  }

  // ---- the format: what is read ----

  /** A value read off the front of the bytes, and the bytes after it. */
  datatype Read<+T> = End | Got(value: T, rest: Bytes)

  function Get32(p: Bytes): Read<U32> {
    if |p| < 4 then End else
      ValueBound(p[..4]);
      Pow256Values();
      Got(Value(p[..4]), p[4..])
  }

  function Get64(p: Bytes): Read<U64> {
    if |p| < 8 then End else
      ValueBound(p[..8]);
      Pow256Values();
      Got(Value(p[..8]), p[8..])
  }

  function GetString(p: Bytes): Read<Bytes> {
    match Get32(p)
    case End => End
    case Got(n, rest) => if n > |rest| then End else Got(rest[..n], rest[n..])
  }

  function GetStrings(p: Bytes, n: nat): Read<seq<Bytes>>
    decreases n
  {
    if n == 0 then Got([], p)
    else match GetString(p)
      case End => End
      case Got(s, rest) =>
        match GetStrings(rest, n - 1)
        case End => End
        case Got(v, more) => Got([s] + v, more)
  }

  function GetDict(p: Bytes): Read<seq<Bytes>> {
    match Get32(p)
    case End => End
    case Got(n, rest) => GetStrings(rest, n)
  }

  function GetRow(p: Bytes): Read<RangeRow> {
    match Get32(p) case End => End case Got(start, p1) =>
    match Get32(p1) case End => End case Got(end, p2) =>
    match Get32(p2) case End => End case Got(country, p3) =>
    match Get32(p3) case End => End case Got(region, p4) =>
    match Get32(p4) case End => End case Got(city, p5) =>
    match Get64(p5) case End => End case Got(lat, p6) =>
    match Get64(p6) case End => End case Got(lon, rest) =>
    Got(RangeRow(start, end, country, region, city, lat, lon), rest)
  }

  function GetRows(p: Bytes, n: nat): Read<seq<RangeRow>>
    decreases n
  {
    if n == 0 then Got([], p)
    else match GetRow(p)
      case End => End
      case Got(r, rest) =>
        match GetRows(rest, n - 1)
        case End => End
        case Got(v, more) => Got([r] + v, more)
  }

  function GetStamp(p: Bytes): Read<SourceStamp> {
    match Get64(p) case End => End case Got(count, p1) =>
    match Get32(p1) case End => End case Got(minStart, p2) =>
    match Get32(p2) case End => End case Got(maxEnd, p3) =>
    match Get64(p3) case End => End case Got(sumStart, p4) =>
    match Get64(p4) case End => End case Got(sumEnd, p5) =>
    match Get64(p5) case End => End case Got(xorSpan, rest) =>
    Got(SourceStamp(count, minStart, maxEnd, sumStart, sumEnd, xorSpan), rest)
  }

  function GetSnapshot(p: Bytes): Read<Snapshot> {
    match GetDict(p) case End => End case Got(countries, p1) =>
    match GetDict(p1) case End => End case Got(regions, p2) =>
    match GetDict(p2) case End => End case Got(cities, p3) =>
    match Get32(p3) case End => End case Got(n, p4) =>
    match GetRows(p4, n) case End => End case Got(rows, rest) =>
    Got(Snapshot(rows, countries, regions, cities), rest)
  }

  function GetPayload(p: Bytes): Result<(Snapshot, SourceStamp), DecodeError> {
    match GetStamp(p)
    case End => Failure(UnexpectedEnd)
    case Got(stamp, p1) =>
      match GetSnapshot(p1)
      case End => Failure(UnexpectedEnd)
      case Got(snap, rest) => if rest == [] then Success((snap, stamp)) else Failure(TrailingBytes)
  }

  function GetFile(crc: Bytes -> U32, data: Bytes): Result<(Snapshot, SourceStamp), DecodeError> {
    if |data| < 12 then Failure(Truncated)
    else if data[..4] != MAGIC then Failure(BadMagic)
    else if Value(data[4..8]) != VERSION then Failure(BadVersion)
    else
      var payload := data[8..|data| - 4];
      if crc(payload) != Value(data[|data| - 4..]) then Failure(BadChecksum) else GetPayload(payload)
  }

  // ---- reading undoes writing, and nothing else is accepted ----

  lemma Pow256Values()
    ensures Pow256(4) == TWO32 && Pow256(8) == TWO64
  {
    assert Pow256(3) == 0x100_0000;
    assert Pow256(6) == 0x1_0000_0000_0000;
  }

  lemma {:induction false} ValueBound(b: Bytes)
    ensures Value(b) < Pow256(|b|)
  {
    if b != [] {
      ValueBound(b[1..]);
    }
  }

  lemma {:induction false} ValueOfLittle(n: nat, w: nat)
    requires n < Pow256(w)
    ensures Value(Little(n, w)) == n
  {
    if w > 0 {
      ValueOfLittle(n / 256, w - 1);
      assert Little(n, w)[1..] == Little(n / 256, w - 1);
    }
  }

  lemma {:induction false} LittleOfValue(b: Bytes)
    ensures Little(Value(b), |b|) == b
  {
    if b != [] {
      LittleOfValue(b[1..]);
      assert Value(b) / 256 == Value(b[1..]) && Value(b) % 256 == b[0];
    }
  }

  /** Reading x off p and leaving rest means exactly that p is x written, then rest. */
  lemma Codec32(p: Bytes, x: U32, rest: Bytes)
    ensures Get32(p) == Got(x, rest) <==> p == Put32(x) + rest
  {
    hide Little, Value, Pow256;
    Pow256Values();
    ValueOfLittle(x, 4);
    if |p| >= 4 {
      LittleOfValue(p[..4]);
      assert p == p[..4] + p[4..];
      if p == Put32(x) + rest {
        assert p[..4] == Put32(x) && p[4..] == rest;
      }
    }
  }

  lemma Codec64(p: Bytes, x: U64, rest: Bytes)
    ensures Get64(p) == Got(x, rest) <==> p == Put64(x) + rest
  {
    hide Little, Value, Pow256;
    Pow256Values();
    ValueOfLittle(x, 8);
    if |p| >= 8 {
      LittleOfValue(p[..8]);
      assert p == p[..8] + p[8..];
      if p == Put64(x) + rest {
        assert p[..8] == Put64(x) && p[8..] == rest;
      }
    }
  }

  lemma Assoc(a: Bytes, b: Bytes, c: Bytes)
    ensures a + b + c == a + (b + c)
  {
  }

  lemma CodecString(p: Bytes, s: Bytes, rest: Bytes)
    ensures GetString(p) == Got(s, rest) <==> |s| < TWO32 && p == PutString(s) + rest
  {
    hide Get32, Put32;
    if |s| < TWO32 {
      Codec32(p, |s|, s + rest);
      Assoc(Put32(|s|), s, rest);
      if p == PutString(s) + rest {
        assert (s + rest)[..|s|] == s && (s + rest)[|s|..] == rest;
      }
    }
    match Get32(p)
    case End =>
    case Got(n, r) =>
      if n <= |r| {
        assert r == r[..n] + r[n..];
      }
  }

  lemma {:induction false} CodecStrings(p: Bytes, n: nat, v: seq<Bytes>, rest: Bytes)
    ensures GetStrings(p, n) == Got(v, rest) <==>
      |v| == n && (forall k :: 0 <= k < n ==> |v[k]| < TWO32) && p == PutStrings(v) + rest
    decreases n
  {
    hide GetString, PutString;
    if n == 0 {
      assert [] + rest == rest;
    } else {
      match GetString(p)
      case End =>
        if |v| == n && |v[0]| < TWO32 {
          CodecString(p, v[0], PutStrings(v[1..]) + rest);
          Assoc(PutString(v[0]), PutStrings(v[1..]), rest);
        }
      case Got(s, r) =>
        if |v| == n {
          CodecStrings(r, n - 1, v[1..], rest);
          CodecString(p, s, r);
          CodecString(p, v[0], PutStrings(v[1..]) + rest);
          Assoc(PutString(v[0]), PutStrings(v[1..]), rest);
          assert v == [v[0]] + v[1..];
          assert forall k :: 1 <= k < n ==> v[k] == v[1..][k - 1];
        }
        match GetStrings(r, n - 1)
        case End =>
        case Got(w, more) =>
          assert ([s] + w)[1..] == w;
          CodecStrings(r, n - 1, w, more);
    }
  }

  lemma CodecDict(p: Bytes, v: seq<Bytes>, rest: Bytes)
    ensures GetDict(p) == Got(v, rest) <==> FitsDict(v) && p == PutDict(v) + rest
  {
    hide Get32, Put32, GetStrings, PutStrings;
    if |v| < TWO32 {
      Codec32(p, |v|, PutStrings(v) + rest);
      Assoc(Put32(|v|), PutStrings(v), rest);
    }
    match Get32(p)
    case End =>
    case Got(n, r) =>
      CodecStrings(r, n, v, rest);
      Codec32(p, n, r);
  }

  lemma CodecRow(p: Bytes, r: RangeRow, rest: Bytes)
    ensures GetRow(p) == Got(r, rest) <==> p == PutRow(r) + rest
  {
    hide Get32, Put32, Get64, Put64;
    var t6 := Put64(r.lon) + rest;
    var t5 := Put64(r.lat) + t6;
    var t4 := Put32(r.cityId) + t5;
    var t3 := Put32(r.regionId) + t4;
    var t2 := Put32(r.countryId) + t3;
    var t1 := Put32(r.end) + t2;
    assert PutRow(r) + rest == Put32(r.start) + t1;
    Codec32(p, r.start, t1);
    Codec32(t1, r.end, t2);
    Codec32(t2, r.countryId, t3);
    Codec32(t3, r.regionId, t4);
    Codec32(t4, r.cityId, t5);
    Codec64(t5, r.lat, t6);
    Codec64(t6, r.lon, rest);
    if GetRow(p) == Got(r, rest) {
      var p1 := Get32(p).rest;
      var p2 := Get32(p1).rest;
      var p3 := Get32(p2).rest;
      var p4 := Get32(p3).rest;
      var p5 := Get32(p4).rest;
      var p6 := Get64(p5).rest;
      Codec32(p, r.start, p1);
      Codec32(p1, r.end, p2);
      Codec32(p2, r.countryId, p3);
      Codec32(p3, r.regionId, p4);
      Codec32(p4, r.cityId, p5);
      Codec64(p5, r.lat, p6);
      Codec64(p6, r.lon, rest);
    }
  }

  lemma {:induction false} CodecRows(p: Bytes, n: nat, v: seq<RangeRow>, rest: Bytes)
    ensures GetRows(p, n) == Got(v, rest) <==> |v| == n && p == PutRows(v) + rest
    decreases n
  {
    hide GetRow, PutRow;
    if n == 0 {
      assert [] + rest == rest;
    } else {
      match GetRow(p)
      case End =>
        if |v| == n {
          CodecRow(p, v[0], PutRows(v[1..]) + rest);
          Assoc(PutRow(v[0]), PutRows(v[1..]), rest);
        }
      case Got(s, r) =>
        if |v| == n {
          CodecRows(r, n - 1, v[1..], rest);
          CodecRow(p, s, r);
          CodecRow(p, v[0], PutRows(v[1..]) + rest);
          Assoc(PutRow(v[0]), PutRows(v[1..]), rest);
          assert v == [v[0]] + v[1..];
        }
        match GetRows(r, n - 1)
        case End =>
        case Got(w, more) =>
          assert ([s] + w)[1..] == w;
          CodecRows(r, n - 1, w, more);
    }
  }

  lemma CodecStamp(p: Bytes, s: SourceStamp, rest: Bytes)
    ensures GetStamp(p) == Got(s, rest) <==> p == PutStamp(s) + rest
  {
    hide Get32, Put32, Get64, Put64;
    var t5 := Put64(s.xorSpan) + rest;
    var t4 := Put64(s.sumEnd) + t5;
    var t3 := Put64(s.sumStart) + t4;
    var t2 := Put32(s.maxEnd) + t3;
    var t1 := Put32(s.minStart) + t2;
    assert PutStamp(s) + rest == Put64(s.count) + t1;
    Codec64(p, s.count, t1);
    Codec32(t1, s.minStart, t2);
    Codec32(t2, s.maxEnd, t3);
    Codec64(t3, s.sumStart, t4);
    Codec64(t4, s.sumEnd, t5);
    Codec64(t5, s.xorSpan, rest);
    if GetStamp(p) == Got(s, rest) {
      var p1 := Get64(p).rest;
      var p2 := Get32(p1).rest;
      var p3 := Get32(p2).rest;
      var p4 := Get64(p3).rest;
      var p5 := Get64(p4).rest;
      Codec64(p, s.count, p1);
      Codec32(p1, s.minStart, p2);
      Codec32(p2, s.maxEnd, p3);
      Codec64(p3, s.sumStart, p4);
      Codec64(p4, s.sumEnd, p5);
      Codec64(p5, s.xorSpan, rest);
    }
  }

  lemma CodecSnapshot(p: Bytes, s: Snapshot, rest: Bytes)
    ensures GetSnapshot(p) == Got(s, rest) <==> Fits(s) && p == PutSnapshot(s) + rest
  {
    hide Get32, Put32, GetDict, PutDict, GetRows, PutRows, FitsDict;
    var t4 := PutRows(s.rows) + rest;
    var t3 := Put32(|s.rows|) + t4;
    var t2 := PutDict(s.cities) + t3;
    var t1 := PutDict(s.regions) + t2;
    assert PutSnapshot(s) + rest == PutDict(s.countries) + t1;
    CodecDict(p, s.countries, t1);
    CodecDict(t1, s.regions, t2);
    CodecDict(t2, s.cities, t3);
    if |s.rows| < TWO32 {
      Codec32(t3, |s.rows|, t4);
      CodecRows(t4, |s.rows|, s.rows, rest);
    }
    if GetSnapshot(p) == Got(s, rest) {
      var p1 := GetDict(p).rest;
      var p2 := GetDict(p1).rest;
      var p3 := GetDict(p2).rest;
      var n, p4 := Get32(p3).value, Get32(p3).rest;
      CodecDict(p, s.countries, p1);
      CodecDict(p1, s.regions, p2);
      CodecDict(p2, s.cities, p3);
      Codec32(p3, n, p4);
      CodecRows(p4, n, s.rows, rest);
    }
  }

  lemma CodecPayload(p: Bytes, s: Snapshot, stamp: SourceStamp)
    ensures GetPayload(p) == Success((s, stamp)) <==> Fits(s) && p == PutPayload(s, stamp)
  {
    hide GetStamp, PutStamp, GetSnapshot, PutSnapshot, Fits;
    assert PutSnapshot(s) + [] == PutSnapshot(s);
    CodecStamp(p, stamp, PutSnapshot(s));
    CodecSnapshot(PutSnapshot(s), s, []);
    if GetPayload(p) == Success((s, stamp)) {
      var p1 := GetStamp(p).rest;
      CodecStamp(p, stamp, p1);
      CodecSnapshot(p1, s, []);
    }
  }

  lemma Value32(b: Bytes, x: U32)
    requires |b| == 4
    ensures Value(b) == x <==> b == Put32(x)
  {
    hide Little, Value, Pow256;
    Pow256Values();
    ValueOfLittle(x, 4);
    LittleOfValue(b);
  }

  lemma FourParts(data: Bytes, a: Bytes, b: Bytes, c: Bytes, d: Bytes)
    requires |data| >= 12 && |a| == |b| == |d| == 4
    ensures data == a + b + c + d <==>
      data[..4] == a && data[4..8] == b && data[8..|data| - 4] == c && data[|data| - 4..] == d
  {
    assert data == data[..4] + data[4..8] + data[8..|data| - 4] + data[|data| - 4..];
    var file := a + b + c + d;
    assert file[..4] == a && file[4..8] == b;
    assert file[8..|file| - 4] == c && file[|file| - 4..] == d;
  }

  lemma WholeFile(data: Bytes, payload: Bytes, sum: U32)
    requires |data| >= 12
    ensures data == MAGIC + Put32(VERSION) + payload + Put32(sum) <==>
      data[..4] == MAGIC && Value(data[4..8]) == VERSION && data[8..|data| - 4] == payload && Value(data[|data| - 4..]) == sum
  {
    hide Put32, Value;
    Put32Length(VERSION);
    Put32Length(sum);
    FourParts(data, MAGIC, Put32(VERSION), payload, Put32(sum));
    Value32(data[4..8], VERSION);
    Value32(data[|data| - 4..], sum);
  }

  /**
   * A byte string is accepted with this content exactly when it is the encoding of
   * this content and every length fits 32 bits.
   */
  lemma CodecFile(crc: Bytes -> U32, data: Bytes, s: Snapshot, stamp: SourceStamp)
    ensures GetFile(crc, data) == Success((s, stamp)) <==> Fits(s) && data == PutFile(crc, s, stamp)
  {
    hide GetPayload, PutPayload, Fits, Put32, Value;
    var payload := PutPayload(s, stamp);
    if |data| < 12 {
      assert |PutFile(crc, s, stamp)| >= 12 by { Put32Length(VERSION); Put32Length(crc(payload)); }
    } else {
      WholeFile(data, payload, crc(payload));
      CodecPayload(data[8..|data| - 4], s, stamp);
      CodecPayload(payload, s, stamp);
    }
  }

  lemma Put32Length(n: nat)
    ensures |Put32(n)| == 4
  {
  }

  /** Decoding an encoded snapshot returns it exactly when every length fits 32 bits. */
  lemma DecodeAfterEncode(crc: Bytes -> U32, s: Snapshot, stamp: SourceStamp)
    ensures GetFile(crc, PutFile(crc, s, stamp)) == Success((s, stamp)) <==> Fits(s)
  {
    hide GetFile, PutFile, Fits;
    CodecFile(crc, PutFile(crc, s, stamp), s, stamp);
  }

  /** Whatever is accepted is byte for byte the encoding of what was read. */
  lemma EncodeAfterDecode(crc: Bytes -> U32, data: Bytes)
    requires GetFile(crc, data).Success?
    ensures var (s, stamp) := GetFile(crc, data).value; data == PutFile(crc, s, stamp)
  {
    hide GetFile, PutFile, Fits;
    var (s, stamp) := GetFile(crc, data).value;
    CodecFile(crc, data, s, stamp);
  }

  // ---- the code: appending to a buffer, and a reader with an offset ----

  method AppendDict(b: Bytes, values: seq<Bytes>) returns (out: Bytes)
    ensures out == b + PutDict(values)
  {
    hide Put32;
    out := b + Put32(|values|);
    var i := 0;
    assert values[0..] == values;
    while i < |values|
      invariant i <= |values|
      invariant out + PutStrings(values[i..]) == b + PutDict(values)
    {
      assert values[i..][0] == values[i] && values[i..][1..] == values[i + 1..];
      var s := values[i];
      Assoc(out + Put32(|s|), s, PutStrings(values[i + 1..]));
      Assoc(out, Put32(|s|), s);
      Assoc(out, PutString(s), PutStrings(values[i + 1..]));
      out := out + Put32(|s|) + s;
      i := i + 1;
    }
    assert values[i..] == [];
    assert out + [] == out;
  }

  method AppendRows(b: Bytes, rows: seq<RangeRow>) returns (out: Bytes)
    ensures out == b + PutRows(rows)
  {
    hide PutRow, Put32;
    out := b;
    var i := 0;
    assert rows[0..] == rows;
    while i < |rows|
      invariant i <= |rows|
      invariant out + PutRows(rows[i..]) == b + PutRows(rows)
    {
      assert rows[i..][0] == rows[i] && rows[i..][1..] == rows[i + 1..];
      Assoc(out, PutRow(rows[i]), PutRows(rows[i + 1..]));
      out := AppendRow(out, rows[i]);
      i := i + 1;
    }
    assert rows[i..] == [];
    assert out + [] == out;
  }

  method AppendRow(b: Bytes, r: RangeRow) returns (out: Bytes)
    ensures out == b + PutRow(r)
  {
    hide Put32, Put64;
    out := b + Put32(r.start);
    out := out + Put32(r.end);
    out := out + Put32(r.countryId);
    out := out + Put32(r.regionId);
    out := out + Put32(r.cityId);
    out := out + Put64(r.lat);
    out := out + Put64(r.lon);
  }

  method EncodePayload(snap: Snapshot, stamp: SourceStamp) returns (b: Bytes)
    ensures b == PutPayload(snap, stamp)
  {
    hide Put32, Put64, PutDict, PutRows;
    b := Put64(stamp.count);
    b := b + Put32(stamp.minStart);
    b := b + Put32(stamp.maxEnd);
    b := b + Put64(stamp.sumStart);
    b := b + Put64(stamp.sumEnd);
    b := b + Put64(stamp.xorSpan);
    assert b == PutStamp(stamp);
    b := AppendDict(b, snap.countries);
    b := AppendDict(b, snap.regions);
    b := AppendDict(b, snap.cities);
    b := b + Put32(|snap.rows|);
    b := AppendRows(b, snap.rows);
  }

  method EncodeSnapshot(crc: Bytes -> U32, snap: Snapshot, stamp: SourceStamp) returns (out: Bytes)
    ensures out == PutFile(crc, snap, stamp)
  {
    var payload := EncodePayload(snap, stamp);
    out := MAGIC + Put32(VERSION);
    out := out + payload;
    out := out + Put32(crc(payload));
  }

  /** The reader moves one offset over the bytes and never past their end. */
  class ByteReader {
    const p: Bytes
    var off: nat

    ghost predicate Valid()
      reads this
    {
      off <= |p|
    }

    constructor (p: Bytes)
      ensures Valid() && this.p == p && off == 0
    {
      this.p, off := p, 0;
    }

    method U32At() returns (v: U32, ok: bool)
      requires Valid()
      modifies this
      ensures Valid() && off == (if ok then old(off) + 4 else old(off))
      ensures Get32(p[old(off)..]) == if ok then Got(v, p[off..]) else End
    {
      if off + 4 > |p| {
        return 0, false;
      }
      ghost var s := p[off..];
      assert s[..4] == p[off..off + 4] && s[4..] == p[off + 4..];
      ValueBound(s[..4]);
      Pow256Values();
      v, ok := Value(p[off..off + 4]), true;
      off := off + 4;
    }

    method U64At() returns (v: U64, ok: bool)
      requires Valid()
      modifies this
      ensures Valid() && off == (if ok then old(off) + 8 else old(off))
      ensures Get64(p[old(off)..]) == if ok then Got(v, p[off..]) else End
    {
      if off + 8 > |p| {
        return 0, false;
      }
      ghost var s := p[off..];
      assert s[..8] == p[off..off + 8] && s[8..] == p[off + 8..];
      ValueBound(s[..8]);
      Pow256Values();
      v, ok := Value(p[off..off + 8]), true;
      off := off + 8;
    }

    method StringAt() returns (s: Bytes, ok: bool)
      requires Valid()
      modifies this
      ensures Valid()
      ensures GetString(p[old(off)..]) == if ok then Got(s, p[off..]) else End
    {
      hide Get32;
      var n, got := U32At();
      if !got || off + n > |p| {
        return [], false;
      }
      ghost var rest := p[off..];
      assert rest[..n] == p[off..off + n] && rest[n..] == p[off + n..];
      s, ok := p[off..off + n], true;
      off := off + n;
    }

    ghost function Cons<T>(done: seq<T>, r: Read<seq<T>>): Read<seq<T>> {
      match r case End => End case Got(v, rest) => Got(done + v, rest)
    }

    lemma ConsNothing<T>(r: Read<seq<T>>)
      ensures Cons([], r) == r
    {
      if r.Got? {
        assert [] + r.value == r.value;
      }
    }

    lemma ConsStep<T>(done: seq<T>, x: T, r: Read<seq<T>>)
      ensures Cons(done, match r case End => End case Got(v, rest) => Got([x] + v, rest)) == Cons(done + [x], r)
    {
      if r.Got? {
        assert done + ([x] + r.value) == done + [x] + r.value;
      }
    }

    method DictAt() returns (out: seq<Bytes>, ok: bool)
      requires Valid()
      modifies this
      ensures Valid()
      ensures GetDict(p[old(off)..]) == if ok then Got(out, p[off..]) else End
    {
      hide Get32, GetString;
      var n, got := U32At();
      out := [];
      if !got {
        return [], false;
      }
      ghost var goal := GetStrings(p[off..], n);
      ConsNothing(goal);
      while |out| < n
        invariant Valid() && |out| <= n
        invariant goal == Cons(out, GetStrings(p[off..], n - |out|))
      {
        ghost var before := out;
        var s, more := StringAt();
        if !more {
          return [], false;
        }
        ConsStep(before, s, GetStrings(p[off..], n - |before| - 1));
        out := out + [s];
      }
      assert out + [] == out;
      ok := true;
    }

    method RowAt() returns (r: RangeRow, ok: bool)
      requires Valid()
      modifies this
      ensures Valid()
      ensures GetRow(p[old(off)..]) == if ok then Got(r, p[off..]) else End
    {
      hide Get32, Get64;
      r := RangeRow(0, 0, 0, 0, 0, 0, 0);
      var start, ok1 := U32At();
      if !ok1 { return r, false; }
      var end, ok2 := U32At();
      if !ok2 { return r, false; }
      var country, ok3 := U32At();
      if !ok3 { return r, false; }
      var region, ok4 := U32At();
      if !ok4 { return r, false; }
      var city, ok5 := U32At();
      if !ok5 { return r, false; }
      var lat, ok6 := U64At();
      if !ok6 { return r, false; }
      var lon, ok7 := U64At();
      if !ok7 { return r, false; }
      r, ok := RangeRow(start, end, country, region, city, lat, lon), true;
    }

    method RowsAt(n: nat) returns (rows: seq<RangeRow>, ok: bool)
      requires Valid()
      modifies this
      ensures Valid()
      ensures GetRows(p[old(off)..], n) == if ok then Got(rows, p[off..]) else End
    {
      hide GetRow;
      ghost var goal := GetRows(p[off..], n);
      ConsNothing(goal);
      rows := [];
      while |rows| < n
        invariant Valid() && |rows| <= n
        invariant goal == Cons(rows, GetRows(p[off..], n - |rows|))
      {
        ghost var before := rows;
        var r, more := RowAt();
        if !more {
          return [], false;
        }
        ConsStep(before, r, GetRows(p[off..], n - |before| - 1));
        rows := rows + [r];
      }
      assert rows + [] == rows;
      ok := true;
    }

    method StampAt() returns (s: SourceStamp, ok: bool)
      requires Valid()
      modifies this
      ensures Valid()
      ensures GetStamp(p[old(off)..]) == if ok then Got(s, p[off..]) else End
    {
      hide Get32, Get64;
      s := SourceStamp(0, 0, 0, 0, 0, 0);
      var count, ok1 := U64At();
      if !ok1 { return s, false; }
      var minStart, ok2 := U32At();
      if !ok2 { return s, false; }
      var maxEnd, ok3 := U32At();
      if !ok3 { return s, false; }
      var sumStart, ok4 := U64At();
      if !ok4 { return s, false; }
      var sumEnd, ok5 := U64At();
      if !ok5 { return s, false; }
      var xorSpan, ok6 := U64At();
      if !ok6 { return s, false; }
      s, ok := SourceStamp(count, minStart, maxEnd, sumStart, sumEnd, xorSpan), true;
    }

    method SnapshotAt() returns (s: Snapshot, ok: bool)
      requires Valid()
      modifies this
      ensures Valid()
      ensures GetSnapshot(p[old(off)..]) == if ok then Got(s, p[off..]) else End
    {
      hide Get32, GetDict, GetRows;
      s := EMPTY_SNAPSHOT;
      var countries, ok1 := DictAt();
      if !ok1 { return s, false; }
      var regions, ok2 := DictAt();
      if !ok2 { return s, false; }
      var cities, ok3 := DictAt();
      if !ok3 { return s, false; }
      var n, ok4 := U32At();
      if !ok4 { return s, false; }
      var rows, ok5 := RowsAt(n);
      if !ok5 { return s, false; }
      s, ok := Snapshot(rows, countries, regions, cities), true;
    }
  }

  method DecodePayload(p: Bytes) returns (r: Result<(Snapshot, SourceStamp), DecodeError>)
    ensures r == GetPayload(p)
  {
    hide GetStamp, GetSnapshot;
    var reader := new ByteReader(p);
    assert p[0..] == p;
    var stamp, ok1 := reader.StampAt();
    if !ok1 { return Failure(UnexpectedEnd); }
    var snap, ok2 := reader.SnapshotAt();
    if !ok2 { return Failure(UnexpectedEnd); }
    if reader.off != |p| { return Failure(TrailingBytes); }
    r := Success((snap, stamp));
  }

  method DecodeSnapshot(crc: Bytes -> U32, data: Bytes) returns (r: Result<(Snapshot, SourceStamp), DecodeError>)
    ensures r == GetFile(crc, data)
  {
    if |data| < 12 { return Failure(Truncated); }
    if data[..4] != MAGIC { return Failure(BadMagic); }
    if Value(data[4..8]) != VERSION { return Failure(BadVersion); }
    var sum := Value(data[|data| - 4..]);
    var payload := data[8..|data| - 4];
    if crc(payload) != sum { return Failure(BadChecksum); }
    r := DecodePayload(payload);
  }
}
