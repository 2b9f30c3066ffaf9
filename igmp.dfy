/**
 * The IGMP message layouts and constants of `igmp.h`: the IGMPv3 Membership
 * Query header, the IGMPv3 Membership Report header and the Group Record
 * header, each as a datatype with a reader (the C's pointer cast onto the
 * buffer) and a writer (filling the struct and sending its bytes), plus the
 * decoded entities the codec returns.
 */
module Igmp {
  import opened Wire

  // IGMP type bytes. 0x11, 0x12 and 0x16 come from the system's <netinet/igmp.h>;
  // 0x22 is the IGMPv3 report code that igmp.h adds.
  const MembershipQuery: byte := 0x11
  const V1MembershipReport: byte := 0x12
  const V2MembershipReport: byte := 0x16
  const V3MembershipReport: byte := 0x22

  // Group Record types.
  const RecordIsInclude: byte := 1
  const RecordIsExclude: byte := 2
  const RecordToInclude: byte := 3
  const RecordToExclude: byte := 4
  const RecordAllowSource: byte := 5
  const RecordBlockSource: byte := 6

  /** `sizeof(struct igmpv3_query)`: the fixed part of a v3 query; sources follow it. */
  const QueryHeaderSize: nat := 12
  /** `sizeof(struct igmpv3_report)`: the fixed part of a v3 report; records follow it. */
  const ReportHeaderSize: nat := 8
  /** `sizeof(struct igmp_record)`: the fixed part of a group record. */
  const RecordHeaderSize: nat := 8
  /** `sizeof(struct igmp)`, the v1/v2 message: type, code, checksum, group. */
  const LegacySize: nat := 8

  /** `struct igmpv3_query`. */
  datatype QueryHeader = QueryHeader(
    qtype: byte, mrc: byte, cksum: u16, group: u32, flags: byte, qqic: byte, nsrc: u16)

  /**
   * The `struct igmpv3_query` that a cast places at offset `off`: each field
   * is the bytes at its offset, multi-byte fields in network byte order.
   */
  function QueryHeaderAt(p: seq<byte>, off: nat): (h: QueryHeader)
    requires off + QueryHeaderSize <= |p|
    ensures h.qtype == p[off] && h.mrc == p[off + 1] && U16Bytes(h.cksum) == p[off + 2..off + 4]
    ensures U32Bytes(h.group) == p[off + 4..off + 8] && h.flags == p[off + 8] && h.qqic == p[off + 9]
    ensures U16Bytes(h.nsrc) == p[off + 10..off + 12]
  {
    U16BytesAt(p, off + 2);
    U32BytesAt(p, off + 4);
    U16BytesAt(p, off + 10);
    QueryHeader(p[off], p[off + 1], U16At(p, off + 2), U32At(p, off + 4),
                p[off + 8], p[off + 9], U16At(p, off + 10))
  }

  /** The 12 bytes of a `struct igmpv3_query`, fields in network byte order. */
  function QueryHeaderBytes(h: QueryHeader): (r: seq<byte>)
    ensures |r| == QueryHeaderSize
    ensures r[0] == h.qtype && r[1] == h.mrc && U16At(r, 2) == h.cksum
    ensures U32At(r, 4) == h.group && r[8] == h.flags && r[9] == h.qqic
    ensures U16At(r, 10) == h.nsrc
    ensures QueryHeaderAt(r, 0) == h
  {
    [h.qtype, h.mrc] + U16Bytes(h.cksum) + U32Bytes(h.group) + [h.flags, h.qqic] + U16Bytes(h.nsrc)
  }

  /** Viewing bytes as the struct and writing the struct back gives the same 12 bytes. */
  lemma QueryHeaderBytesAt(p: seq<byte>, off: nat)
    requires off + QueryHeaderSize <= |p|
    ensures QueryHeaderBytes(QueryHeaderAt(p, off)) == p[off..off + QueryHeaderSize]
  {
    U16BytesAt(p, off + 2);
    U32BytesAt(p, off + 4);
    U16BytesAt(p, off + 10);
  }

  /** `struct igmpv3_report`. */
  datatype ReportHeader = ReportHeader(rtype: byte, rsv1: byte, cksum: u16, rsv2: u16, nrec: u16)

  /** The `struct igmpv3_report` that a cast places at offset `off`. */
  function ReportHeaderAt(p: seq<byte>, off: nat): (h: ReportHeader)
    requires off + ReportHeaderSize <= |p|
    ensures h.rtype == p[off] && h.rsv1 == p[off + 1] && U16Bytes(h.cksum) == p[off + 2..off + 4]
    ensures U16Bytes(h.rsv2) == p[off + 4..off + 6] && U16Bytes(h.nrec) == p[off + 6..off + 8]
  {
    U16BytesAt(p, off + 2);
    U16BytesAt(p, off + 4);
    U16BytesAt(p, off + 6);
    ReportHeader(p[off], p[off + 1], U16At(p, off + 2), U16At(p, off + 4), U16At(p, off + 6))
  }

  /** The 8 bytes of a `struct igmpv3_report`. */
  function ReportHeaderBytes(h: ReportHeader): (r: seq<byte>)
    ensures |r| == ReportHeaderSize
    ensures r[0] == h.rtype && r[1] == h.rsv1 && U16At(r, 2) == h.cksum
    ensures U16At(r, 4) == h.rsv2 && U16At(r, 6) == h.nrec
    ensures ReportHeaderAt(r, 0) == h
  {
    [h.rtype, h.rsv1] + U16Bytes(h.cksum) + U16Bytes(h.rsv2) + U16Bytes(h.nrec)
  }

  lemma ReportHeaderBytesAt(p: seq<byte>, off: nat)
    requires off + ReportHeaderSize <= |p|
    ensures ReportHeaderBytes(ReportHeaderAt(p, off)) == p[off..off + ReportHeaderSize]
  {
    U16BytesAt(p, off + 2);
    U16BytesAt(p, off + 4);
    U16BytesAt(p, off + 6);
  }

  /** `struct igmp_record`: the sources and then 4 * auxlen bytes of auxiliary data follow it. */
  datatype RecordHeader = RecordHeader(gtype: byte, auxlen: byte, nsrc: u16, group: u32)

  /** The `struct igmp_record` that a cast places at offset `off`. */
  function RecordHeaderAt(p: seq<byte>, off: nat): (h: RecordHeader)
    requires off + RecordHeaderSize <= |p|
  {
    RecordHeader(p[off], p[off + 1], U16At(p, off + 2), U32At(p, off + 4))
  }

  /** The 8 bytes of a `struct igmp_record`. */
  function RecordHeaderBytes(h: RecordHeader): (r: seq<byte>)
    ensures |r| == RecordHeaderSize
    ensures r[0] == h.gtype && r[1] == h.auxlen && U16At(r, 2) == h.nsrc && U32At(r, 4) == h.group
    ensures RecordHeaderAt(r, 0) == h
  {
    [h.gtype, h.auxlen] + U16Bytes(h.nsrc) + U32Bytes(h.group)
  }

  lemma RecordHeaderBytesAt(p: seq<byte>, off: nat)
    requires off + RecordHeaderSize <= |p|
    ensures RecordHeaderBytes(RecordHeaderAt(p, off)) == p[off..off + RecordHeaderSize]
  {
    U16BytesAt(p, off + 2);
    U32BytesAt(p, off + 4);
  }

  /** The six Group Record types, in three pairs. */
  datatype RecordKind =
    | IsInclude | IsExclude          // current-state records
    | ToInclude | ToExclude          // filter-mode-change records
    | AllowNewSources | BlockOldSources  // source-list-change records

  datatype RecordCategory = CurrentState | FilterModeChange | SourceListChange

  /** The record-type code of a kind. */
  function KindCode(k: RecordKind): (t: byte)
    ensures 1 <= t <= 6
  {
    match k
    case IsInclude => RecordIsInclude
    case IsExclude => RecordIsExclude
    case ToInclude => RecordToInclude
    case ToExclude => RecordToExclude
    case AllowNewSources => RecordAllowSource
    case BlockOldSources => RecordBlockSource
  }

  /**
   * The kind a record-type byte names. The C's switch has a case for 1..6 and
   * no default, so any other byte is simply not classified (and not rejected).
   */
  function KindOf(t: byte): (k: Option<RecordKind>)
    ensures k.Some? <==> 1 <= t <= 6
    ensures k.Some? ==> KindCode(k.value) == t
  {
    if t == RecordIsInclude then Some(IsInclude)
    else if t == RecordIsExclude then Some(IsExclude)
    else if t == RecordToInclude then Some(ToInclude)
    else if t == RecordToExclude then Some(ToExclude)
    else if t == RecordAllowSource then Some(AllowNewSources)
    else if t == RecordBlockSource then Some(BlockOldSources)
    else None
  }

  /** Codes and kinds are in one-to-one correspondence. */
  lemma KindCodeInverse(k: RecordKind)
    ensures KindOf(KindCode(k)) == Some(k)
  {
  }

  /** Which of the three pairs a kind belongs to, by its code. */
  function Category(k: RecordKind): (c: RecordCategory)
    ensures c == CurrentState <==> KindCode(k) in {1, 2}
    ensures c == FilterModeChange <==> KindCode(k) in {3, 4}
    ensures c == SourceListChange <==> KindCode(k) in {5, 6}
  {
    match k
    case IsInclude | IsExclude => CurrentState
    case ToInclude | ToExclude => FilterModeChange
    case AllowNewSources | BlockOldSources => SourceListChange
  }

  /** The label the report printer shows for a kind. */
  function Label(k: RecordKind): (s: string)
    ensures |s| == 5
  {
    match k
    case IsInclude => "is_in"
    case IsExclude => "is_ex"
    case ToInclude => "to_in"
    case ToExclude => "to_ex"
    case AllowNewSources => "allow"
    case BlockOldSources => "block"
  }

  /** No two kinds share a label, so the label table loses no information. */
  lemma LabelInjective(k: RecordKind, k': RecordKind)
    requires Label(k) == Label(k')
    ensures k == k'
  {
  }

  /** A decoded IGMPv3 Membership Query. MRC and QQIC stay the raw bytes. */
  datatype Query = Query(mrc: byte, group: u32, flags: byte, qqic: byte, sources: seq<u32>)

  /**
   * A decoded Group Record. The type byte stays raw because the source does not
   * reject values outside 1..6; `aux` holds the 4 * auxlen auxiliary bytes.
   */
  datatype GroupRecord = GroupRecord(rtype: byte, group: u32, sources: seq<u32>, aux: seq<byte>)
}
