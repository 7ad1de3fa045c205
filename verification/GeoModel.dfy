/** The data of the GeoIP index. Strings are bytes; coordinates are 64-bit float patterns. */
module GeoModel {
  import opened Common

  type Byte = x: nat | x < 256

  type Bytes = seq<Byte>

  datatype GeoRange = GeoRange(start: U32, end: U32, country: Bytes, region: Bytes, city: Bytes, lat: U64, lon: U64)

  /** A range whose names are replaced by positions in the snapshot's dictionaries. */
  datatype RangeRow = RangeRow(start: U32, end: U32, countryId: U32, regionId: U32, cityId: U32, lat: U64, lon: U64)

  datatype Snapshot = Snapshot(rows: seq<RangeRow>, countries: seq<Bytes>, regions: seq<Bytes>, cities: seq<Bytes>)

  /** A cheap fingerprint of all source rows. */
  datatype SourceStamp = SourceStamp(count: U64, minStart: U32, maxEnd: U32, sumStart: U64, sumEnd: U64, xorSpan: U64)

  const EMPTY_SNAPSHOT := Snapshot([], [], [], [])
}
