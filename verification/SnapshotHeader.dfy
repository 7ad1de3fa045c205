/** The frame of a snapshot file, byte by byte, and what is said of a file whose frame is wrong. */
module SnapshotHeader {
  import opened Common
  import opened GeoModel
  import opened SnapshotCodec

  /** The letters NMGS and the number 1 in four bytes, the lowest first. */
  const FRONT: Bytes := [78, 77, 71, 83, 1, 0, 0, 0]

  /** The four bytes of a word, the lowest first. */
  function FourBytes(n: U32): Bytes {
    [n % 256, n / 256 % 256, n / 0x1_0000 % 256, n / 0x100_0000]
  }

  lemma Put32Is(n: U32)
    ensures Put32(n) == FourBytes(n)
  {
    assert n / 256 / 256 == n / 0x1_0000;
    assert n / 0x1_0000 / 256 == n / 0x100_0000;
    assert n / 0x100_0000 / 256 == 0;
    assert Little(n / 0x100_0000, 1) == [n / 0x100_0000 % 256] + Little(n / 0x100_0000 / 256, 0);
    assert Little(n / 0x1_0000, 2) == [n / 0x1_0000 % 256] + Little(n / 0x100_0000, 1);
    assert Little(n / 256, 3) == [n / 256 % 256] + Little(n / 0x1_0000, 2);
    assert Little(n, 4) == [n % 256] + Little(n / 256, 3);
  }

  /** A written file begins with NMGS and version 1 and ends with the checksum of what is between. */
  lemma FileFrame(crc: Bytes -> U32, s: Snapshot, stamp: SourceStamp)
    ensures PutFile(crc, s, stamp) == FRONT + PutPayload(s, stamp) + FourBytes(crc(PutPayload(s, stamp)))
  {
    Put32Is(VERSION);
    Put32Is(crc(PutPayload(s, stamp)));
    hide Put32, PutPayload;
    assert MAGIC + FourBytes(VERSION) == FRONT;
  }

  lemma WordIs(b: Bytes, n: U32)
    requires |b| == 4
    ensures Value(b) == n <==> b == FourBytes(n)
  {
    Put32Is(n);
    ValueBound(b);
    Pow256Values();
    LittleOfValue(b);
    ValueOfLittle(n, 4);
    hide Little, Value;
  }

  /**
   * The first fault of a file, front to back: fewer than twelve bytes, other letters,
   * another version, a checksum that is not that of the payload, and only then whatever
   * is wrong with the payload itself.
   */
  lemma FirstFaultIsNamed(crc: Bytes -> U32, letters: Bytes, version: Bytes, payload: Bytes, sum: Bytes)
    requires |letters| == 4 && |version| == 4 && |sum| == 4
    ensures var r := GetFile(crc, letters + version + payload + sum);
      if letters != [78, 77, 71, 83] then r == Failure(BadMagic)
      else if version != [1, 0, 0, 0] then r == Failure(BadVersion)
      else if sum != FourBytes(crc(payload)) then r == Failure(BadChecksum)
      else r == GetPayload(payload)
  {
    hide Value, GetPayload;
    var data := letters + version + payload + sum;
    assert data[..4] == letters && data[4..8] == version;
    assert data[8..|data| - 4] == payload && data[|data| - 4..] == sum;
    WordIs(version, VERSION);
    assert FourBytes(VERSION) == [1, 0, 0, 0];
    WordIs(sum, crc(payload));
  }

  /** Files of fewer than twelve bytes are truncated, and no others are said to be. */
  lemma ShortFiles(crc: Bytes -> U32, data: Bytes)
    ensures GetFile(crc, data) == Failure(Truncated) <==> |data| < 12
  {
    hide GetStamp, GetSnapshot;
  }

  /** A payload with bytes left over is told from one that ends too early. */
  lemma PayloadFaults(s: Snapshot, stamp: SourceStamp, more: Bytes)
    requires Fits(s) && more != []
    ensures GetPayload(PutPayload(s, stamp) + more) == Failure(TrailingBytes)
  {
    CodecStamp(PutPayload(s, stamp) + more, stamp, PutSnapshot(s) + more);
    CodecSnapshot(PutSnapshot(s) + more, s, more);
    hide PutStamp, PutSnapshot, GetStamp, GetSnapshot, Fits;
    assert PutPayload(s, stamp) + more == PutStamp(stamp) + (PutSnapshot(s) + more);
  }
}
