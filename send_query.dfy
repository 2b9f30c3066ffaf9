/**
 * The packet-building part of `mcast_send_query` (mcast-query.c:283-289):
 * an IGMPv3 General Query (RFC 3376 section 4.1), 12 bytes with no sources,
 * addressed to the all-systems group 224.0.0.1 (line 295), its checksum
 * computed by `in_cksum` and written into the checksum field.
 */
module GeneralQuery {
  import opened Wire
  import opened Igmp
  import opened InternetChecksum
  import opened QueryDecode

  /** 224.0.0.1, `htonl(0xe0000001)`, where General Queries are sent (RFC 3376 section 4.1.12). */
  const AllSystemsGroup: u32 := 0xe000_0001

  // The field values `mcast_send_query` assigns.
  const GeneralQueryMrc: byte := 100
  const GeneralQueryFlags: byte := 2   // S flag clear, QRV 2
  const GeneralQueryQqic: byte := 125

  /** The query struct with its checksum field zero, as RFC 3376 section 4.1.2 requires while summing. */
  function UnstampedHeader(): (h: QueryHeader)
    ensures h.cksum == 0 && h.nsrc == 0 && h.group == 0
  {
    QueryHeader(MembershipQuery, GeneralQueryMrc, 0, 0, GeneralQueryFlags, GeneralQueryQqic, 0)
  }

  /**
   * The General Query on the wire: the 12 bytes of `struct igmpv3_query`
   * with the checksum of the zero-checksum struct in bytes 2-3. Its own
   * checksum recomputes to 0, and it decodes to a query for group 0.0.0.0
   * with mrc 100, flags 2, qqic 125 and no sources.
   */
  function GeneralQueryBytes(): (r: seq<byte>)
    ensures |r| == QueryHeaderSize && r[0] == MembershipQuery
    ensures Checksum(r) == 0
    ensures DecodeQuery(r) == Success(Query(GeneralQueryMrc, 0, GeneralQueryFlags, GeneralQueryQqic, []))
  {
    var h := UnstampedHeader();
    var s := QueryHeaderBytes(h);
    var q := Query(h.mrc, h.group, h.flags, h.qqic, []);
    StampedChecksumIsZero(s, 2);
    QueryRoundTrip(q, 0);
    assert EncodeQuery(q, 0) == s + [];
    DecodeIgnoresChecksum(s, Checksum(s));
    Stamp(s, 2)
  }

  /** The twelve bytes themselves: the checksum is 0xec1e. */
  lemma GeneralQueryValue()
    ensures GeneralQueryBytes() == QueryBytesWith(0xec1e)
  {
    var zero: u16 := 0;
    AsWrittenStamp(zero);
  }

  /**
   * `iq.iq_cksum = in_cksum(&iq, sizeof(iq))` (mcast-query.c:289): the
   * checksum of the whole buffer, written big-endian into bytes `at`, `at + 1`.
   */
  method StampChecksum(buf: array<byte>, at: nat)
    requires at + 2 <= buf.Length
    modifies buf
    ensures buf[..] == Stamp(old(buf[..]), at)
  {
    ghost var s := buf[..];
    var c := InCksum(buf[..]);
    buf[at], buf[at + 1] := c / 0x100, c % 0x100;
    assert buf[..] == s[..at] + U16Bytes(c) + s[at + 2..];
  }

  /**
   * `mcast_send_query` up to the checksum: the struct is filled field by
   * field in a 12-byte buffer with the checksum field zeroed, then stamped.
   * Returns the destination group and the bytes handed to `sendmsg`.
   */
  method BuildGeneralQuery() returns (dest: u32, pkt: seq<byte>)
    ensures dest == AllSystemsGroup
    ensures pkt == GeneralQueryBytes()
  {
    var iq := new byte[QueryHeaderSize];
    iq[0] := MembershipQuery;
    iq[1] := GeneralQueryMrc;
    iq[2], iq[3] := 0, 0;             // the C leaves iq_cksum uninitialised here
    iq[4], iq[5], iq[6], iq[7] := 0, 0, 0, 0;
    iq[8] := GeneralQueryFlags;
    iq[9] := GeneralQueryQqic;
    iq[10], iq[11] := 0, 0;
    assert iq[..] == [0x11, 0x64, 0, 0, 0, 0, 0, 0, 0x02, 0x7d, 0, 0];
    UnstampedBytes();
    StampChecksum(iq, 2);
    pkt := iq[..];
    dest := AllSystemsGroup;
  }

  // The checksum as the C computes it, over whatever `iq_cksum` holds.

  /**
   * mcast-query.c:289 passes the struct to `in_cksum` before `iq_cksum` is
   * assigned, so the sum includes whatever value `garbage` the field holds.
   */
  function GeneralQueryAsWritten(garbage: u16): (r: seq<byte>)
    ensures |r| == QueryHeaderSize
    ensures garbage == 0 ==> r == GeneralQueryBytes()
  {
    var h := UnstampedHeader();
    Stamp(QueryHeaderBytes(QueryHeader(h.qtype, h.mrc, garbage, h.group, h.flags, h.qqic, h.nsrc)), 2)
  }

  /** The General Query's header bytes, 11 64 vv vv 00 00 00 00 02 7d 00 00, with `v` in the checksum field. */
  function QueryBytesWith(v: u16): (r: seq<byte>)
    ensures |r| == QueryHeaderSize && U16At(r, 2) == v
  {
    [0x11, 0x64] + U16Bytes(v) + [0, 0, 0, 0, 0x02, 0x7d, 0, 0]
  }

  /** The complement of the folded sum 0x13e1 + v, with at most one carry. */
  function ComplementAfter(v: u16): (r: u16)
  {
    if v < 0xec1f then 0xec1e - v else 0x1_ec1d - v
  }

  /** `in_cksum` of those bytes: the other words sum to 0x13e1. */
  lemma QueryBytesChecksum(v: u16)
    ensures Checksum(QueryBytesWith(v)) == ComplementAfter(v)
  {
    var s := QueryBytesWith(v);
    WordSum12(s);
    assert U16At(s, 0) == 0x1164 && U16At(s, 8) == 0x027d;
    assert U16At(s, 4) == 0 && U16At(s, 6) == 0 && U16At(s, 10) == 0;
    FoldOnce(0x13e1 + v);
  }

  /** The zero-checksum struct is those bytes with 0 in the field. */
  lemma UnstampedBytes()
    ensures QueryHeaderBytes(UnstampedHeader()) == QueryBytesWith(0)
    ensures QueryBytesWith(0) == [0x11, 0x64, 0, 0, 0, 0, 0, 0, 0x02, 0x7d, 0, 0]
  {
  }

  /**
   * What the C stamps when the field holds `garbage`: the header with the
   * checksum of the header that still carries `garbage`.
   */
  lemma AsWrittenStamp(garbage: u16)
    ensures GeneralQueryAsWritten(garbage) == QueryBytesWith(ComplementAfter(garbage))
  {
    var s := QueryBytesWith(garbage);
    HeaderWith(garbage);
    QueryBytesChecksum(garbage);
    var c := ComplementAfter(garbage);
    StampWith(s, 2, c);
    QueryBytesSplice(garbage, c);
  }

  /** The struct the C fills, with `v` left in its checksum field, as bytes. */
  lemma HeaderWith(v: u16)
    ensures var h := UnstampedHeader();
      QueryHeaderBytes(QueryHeader(h.qtype, h.mrc, v, h.group, h.flags, h.qqic, h.nsrc)) == QueryBytesWith(v)
  {
    assert U32Bytes(0) == [0, 0, 0, 0] && U16Bytes(0) == [0, 0];
  }

  /** Writing `c` over the checksum field of the bytes carrying `v`. */
  lemma QueryBytesSplice(v: u16, c: u16)
    ensures QueryBytesWith(v)[..2] + U16Bytes(c) + QueryBytesWith(v)[4..] == QueryBytesWith(c)
  {
    var s := QueryBytesWith(v);
    assert s[..2] == [0x11, 0x64];
    assert s[4..] == [0, 0, 0, 0, 0x02, 0x7d, 0, 0];
  }

  /**
   * The checksum of the query the C sends recomputes to the value the field
   * held before stamping (or to 0 if it held 0xffff, ones'-complement zero),
   * so a receiver accepts it only if the stack happened to hold 0 or 0xffff there.
   */
  lemma UninitialisedChecksumField(garbage: u16)
    ensures Checksum(GeneralQueryAsWritten(garbage)) == if garbage == 0xffff then 0 else garbage
    ensures Checksum(GeneralQueryAsWritten(garbage)) == 0 <==> garbage == 0 || garbage == 0xffff
  {
    AsWrittenStamp(garbage);
    QueryBytesChecksum(ComplementAfter(garbage));
  }
}
