/** Identifiers, message views and actions shared by the RTPS modules. */
module RtpsTypes {
  import opened Bytes
  import opened SerialCount
  import opened SequenceSet

  type EntityId = s: seq<byte> | |s| == 4 witness [0, 0, 0, 0]
  type VendorId = s: seq<byte> | |s| == 2 witness [0, 0]
  type GuidPrefix = s: seq<byte> | |s| == 12 witness [0, 0, 0, 0, 0, 0, 0, 0, 0, 0, 0, 0]

  datatype Option<+T> = None | Some(value: T)

  datatype Version = Version(major: byte, minor: byte)

  predicate SupportedVersion(v: Version)
  {
    v.major == 2 && 1 <= v.minor <= 5
  }

  datatype Header = Header(version: Version, vendor: VendorId, prefix: GuidPrefix, order: ByteOrder)

  datatype Heartbeat = Heartbeat(
    header: Header, readerId: EntityId, writerId: EntityId,
    first: nat, last: nat, count: i32, finalFlag: bool, livelinessFlag: bool)

  datatype AckNack = AckNack(
    header: Header, readerId: EntityId, writerId: EntityId,
    readerState: NumberSet, count: i32, finalFlag: bool)
}
