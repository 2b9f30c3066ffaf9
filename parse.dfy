/**
 * `mcast_parse` (mcast-query.c:118-162): skip the IPv4 header of a received
 * datagram and classify the IGMP message behind it by its type byte and its
 * length, handing v3 queries and v3 reports to their decoders. Where the C
 * prints, the model returns the decoded message.
 */
module Dispatch {
  import opened Wire
  import opened Igmp
  import opened QueryDecode
  import opened ReportDecode

  /** `sizeof(struct ip)`: an IPv4 header without options. */
  const IpHeaderSize: nat := 20

  /** One decoded IGMP message. */
  datatype Message =
    | V3Query(query: Query)                              // type 0x11, at least 12 bytes
    | LegacyQuery(group: u32)                            // type 0x11, 8 to 11 bytes: IGMPv1 or IGMPv2
    | LegacyReport(version: nat, code: byte, group: u32) // type 0x12 (v1) or 0x16 (v2)
    | V3Report(records: seq<GroupRecord>)                // type 0x22

  /**
   * `ip->ip_hl << 2`: the IP header length in bytes, four times the IHL
   * field, the low nibble of the first byte (RFC 791 section 3.1).
   */
  function HeaderLength(pkt: seq<byte>): (n: nat)
    requires |pkt| > 0
    ensures n % 4 == 0 && n <= 60
  {
    4 * (pkt[0] as int % 16)
  }

  /**
   * The type switch (mcast-query.c:137-161) on an IGMP payload. The C reads
   * the type byte of an empty payload and the eight bytes of `struct igmp` in
   * the legacy branches without a length check; here such short payloads are
   * `BufferUnderrun`. A type the switch has no case for is `UnknownType`.
   */
  function Classify(p: seq<byte>): (r: Result<Message>)
    ensures |p| < LegacySize ==> r.Failure?
    ensures |p| == 0 ==> r == Failure(BufferUnderrun)
    ensures r.Failure? ==>
      || r.error == BufferUnderrun || r.error == DeclaredLengthExceedsBuffer
      || (|p| > 0 && r.error == UnknownType(p[0]))
    ensures r.Success? && r.value.V3Query? <==>
      |p| >= QueryHeaderSize && p[0] == MembershipQuery && DecodeQuery(p).Success?
    ensures r.Success? && r.value.V3Query? ==> r.value.query == DecodeQuery(p).value
    ensures r.Success? && r.value.LegacyQuery? <==>
      LegacySize <= |p| < QueryHeaderSize && p[0] == MembershipQuery
    ensures r.Success? && r.value.LegacyReport? <==>
      |p| >= LegacySize && (p[0] == V1MembershipReport || p[0] == V2MembershipReport)
    ensures r.Success? && r.value.V3Report? <==>
      |p| > 0 && p[0] == V3MembershipReport && DecodeReport(p).Success?
    ensures r.Success? && r.value.V3Report? ==> r.value.records == DecodeReport(p).value
    ensures r.Success? && (r.value.LegacyQuery? || r.value.LegacyReport?) ==> r.value.group == U32At(p, 4)
    ensures r.Success? && r.value.LegacyReport? ==>
      r.value.code == p[1] && (r.value.version == 1 <==> p[0] == V1MembershipReport)
      && (r.value.version == 2 <==> p[0] == V2MembershipReport)
    ensures |p| > 0 ==>
      (r == Failure(UnknownType(p[0])) <==>
       p[0] !in {MembershipQuery, V1MembershipReport, V2MembershipReport, V3MembershipReport})
  {
    if |p| == 0 then Failure(BufferUnderrun)
    else if p[0] == MembershipQuery then
      if |p| >= QueryHeaderSize then
        match DecodeQuery(p)
        case Success(q) => Success(V3Query(q))
        case Failure(e) => Failure(e)
      else if |p| >= LegacySize then Success(LegacyQuery(U32At(p, 4)))
      else Failure(BufferUnderrun)
    else if p[0] == V1MembershipReport || p[0] == V2MembershipReport then
      if |p| >= LegacySize then
        Success(LegacyReport(if p[0] == V1MembershipReport then 1 else 2, p[1], U32At(p, 4)))
      else Failure(BufferUnderrun)
    else if p[0] == V3MembershipReport then
      match DecodeReport(p)
      case Success(gs) => Success(V3Report(gs))
      case Failure(e) => Failure(e)
    else Failure(UnknownType(p[0]))
  }

  /**
   * The reference decoding of a received datagram. It is rejected if shorter
   * than an IP header, or if its IP header length points past its end (the C
   * subtracts without checking, see `PayloadLengthAsWritten`); otherwise the
   * payload after the IP header is classified.
   */
  function Parse(pkt: seq<byte>): (r: Result<Message>)
    ensures |pkt| < IpHeaderSize ==> r == Failure(ShortPacket)
    ensures |pkt| >= IpHeaderSize ==>
      (r == Failure(HeaderLengthExceedsPacket) <==> HeaderLength(pkt) > |pkt|)
    ensures r.Success? ==> |pkt| >= IpHeaderSize && HeaderLength(pkt) + LegacySize <= |pkt|
  {
    if |pkt| < IpHeaderSize then Failure(ShortPacket)
    else if HeaderLength(pkt) > |pkt| then Failure(HeaderLengthExceedsPacket)
    else Classify(pkt[HeaderLength(pkt)..])
  }

  /**
   * `mcast_parse` with its pointer and length: `data` and `data_len` move past
   * the IP header together (mcast-query.c:128-130), then the switch hands the
   * payload to `ParseQuery` or `ParseReport` or reads the legacy fields itself.
   */
  method ParseMessage(pkt: seq<byte>) returns (r: Result<Message>)
    ensures r == Parse(pkt)
  {
    if |pkt| < IpHeaderSize {
      return Failure(ShortPacket);
    }
    var hl := 4 * (pkt[0] as int % 16);
    if hl > |pkt| {
      return Failure(HeaderLengthExceedsPacket);
    }
    var data := pkt[hl..];
    var dataLen := |pkt| - hl;
    if dataLen == 0 {
      return Failure(BufferUnderrun);
    }
    var t := data[0];
    if t == MembershipQuery {
      if dataLen >= QueryHeaderSize {
        var q := ParseQuery(data);
        if q.Failure? {
          return Failure(q.error);
        }
        return Success(V3Query(q.value));
      }
      if dataLen < LegacySize {
        return Failure(BufferUnderrun);
      }
      return Success(LegacyQuery(U32At(data, 4)));
    } else if t == V1MembershipReport || t == V2MembershipReport {
      if dataLen < LegacySize {
        return Failure(BufferUnderrun);
      }
      var version := if t == V1MembershipReport then 1 else 2;
      return Success(LegacyReport(version, data[1], U32At(data, 4)));
    } else if t == V3MembershipReport {
      var gs := ParseReport(data);
      if gs.Failure? {
        return Failure(gs.error);
      }
      return Success(V3Report(gs.value));
    }
    return Failure(UnknownType(t));
  }

  /** An options-free or optioned IP header whose IHL field gives exactly its own length. */
  predicate IpHeader(ip: seq<byte>)
  {
    |ip| >= IpHeaderSize && HeaderLength(ip) == |ip|
  }

  /** The eight bytes of `struct igmp`, the IGMPv1/IGMPv2 message: type, code, checksum, group. */
  function LegacyBytes(t: byte, code: byte, cksum: u16, group: u32): (r: seq<byte>)
    ensures |r| == LegacySize && r[0] == t && r[1] == code && U16At(r, 2) == cksum && U32At(r, 4) == group
  {
    [t, code] + U16Bytes(cksum) + U32Bytes(group)
  }

  /**
   * Whatever follows an IP header whose IHL gives its own length is the IGMP
   * payload: a datagram of at least 20 bytes parses exactly as that payload
   * classifies. This includes headers of IHL 1 to 4, shorter than an
   * options-free header, which the C accepts too.
   */
  lemma ParsePayload(ip: seq<byte>, payload: seq<byte>)
    requires |ip| > 0 && HeaderLength(ip) == |ip| && |ip| + |payload| >= IpHeaderSize
    ensures Parse(ip + payload) == Classify(payload)
  {
    var pkt := ip + payload;
    assert pkt[HeaderLength(pkt)..] == payload;
  }

  /** A datagram carrying an encoded v3 query parses back to that query. */
  lemma ParseV3Query(ip: seq<byte>, q: Query, cksum: u16)
    requires IpHeader(ip) && |q.sources| < 0x1_0000
    ensures Parse(ip + EncodeQuery(q, cksum)) == Success(V3Query(q))
  {
    ParsePayload(ip, EncodeQuery(q, cksum));
    QueryRoundTrip(q, cksum);
  }

  /** A datagram carrying an encoded v3 report parses back to its records, in order. */
  lemma ParseV3Report(ip: seq<byte>, gs: seq<GroupRecord>, cksum: u16)
    requires IpHeader(ip)
    requires |gs| < 0x1_0000 && AllEncodable(gs)
    ensures Parse(ip + EncodeReport(gs, cksum)) == Success(V3Report(gs))
  {
    ParsePayload(ip, EncodeReport(gs, cksum));
    assert EncodeReport(gs, cksum) + [] == EncodeReport(gs, cksum);
    ReportRoundTrip(gs, cksum, []);
  }

  /** A v1 or v2 report parses back to its version, code and group. */
  lemma ParseLegacyReport(ip: seq<byte>, v2: bool, code: byte, cksum: u16, group: u32)
    requires IpHeader(ip)
    ensures var t := if v2 then V2MembershipReport else V1MembershipReport;
      Parse(ip + LegacyBytes(t, code, cksum, group))
        == Success(LegacyReport(if v2 then 2 else 1, code, group))
  {
    var t := if v2 then V2MembershipReport else V1MembershipReport;
    ParsePayload(ip, LegacyBytes(t, code, cksum, group));
  }

  /**
   * An eight-byte query is told from a v3 query by its length alone (RFC 3376
   * section 7.1) and parses to its group address.
   */
  lemma ParseLegacyQuery(ip: seq<byte>, code: byte, cksum: u16, group: u32)
    requires IpHeader(ip)
    ensures Parse(ip + LegacyBytes(MembershipQuery, code, cksum, group)) == Success(LegacyQuery(group))
  {
    ParsePayload(ip, LegacyBytes(MembershipQuery, code, cksum, group));
  }

  // The payload length as the C computes it.

  /**
   * `data_len -= ip->ip_hl << 2` on a `size_t` (mcast-query.c:130): with no
   * check against the length, a header length beyond the datagram wraps
   * around modulo 2^64. A 64-bit `size_t` is assumed; on a 32-bit target the
   * wrap is modulo 2^32.
   */
  function PayloadLengthAsWritten(pkt: seq<byte>): (n: nat)
    requires |pkt| > 0
    ensures n < 0x1_0000_0000_0000_0000
    ensures HeaderLength(pkt) <= |pkt| < 0x1_0000_0000_0000_0000 ==> n == |pkt| - HeaderLength(pkt)
  {
    (|pkt| - HeaderLength(pkt)) % 0x1_0000_0000_0000_0000
  }

  /** A 20-byte datagram claiming a 60-byte header (IHL 15). */
  function LongHeaderExample(): (p: seq<byte>)
    ensures |p| == IpHeaderSize && p[0] == 0x4f
  {
    [0x4f] + seq(19, i => 0)
  }

  /**
   * On that datagram the C's payload length wraps to 2^64 - 40 (with a 64-bit
   * `size_t`) and its
   * payload pointer lies 40 bytes past the end, while `Parse` rejects it.
   */
  lemma HeaderLengthWraps()
    ensures PayloadLengthAsWritten(LongHeaderExample()) == 0x1_0000_0000_0000_0000 - 40
    ensures HeaderLength(LongHeaderExample()) == |LongHeaderExample()| + 40
    ensures Parse(LongHeaderExample()) == Failure(HeaderLengthExceedsPacket)
  {
  }
}
