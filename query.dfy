/**
 * Decoding of an IGMPv3 Membership Query (RFC 3376 section 4.1),
 * `mcast_parse_query` in mcast-query.c: the 12-byte `struct igmpv3_query`
 * followed by `nsrc` source addresses.
 */
module QueryDecode {
  import opened Wire
  import opened Igmp

  /**
   * The reference decoding of a v3 query payload. A payload shorter than the
   * fixed header is rejected, and so is one shorter than the source list its
   * `nsrc` declares: the C's source loop never makes that second check.
   */
  function DecodeQuery(p: seq<byte>): (r: Result<Query>)
    ensures |p| < QueryHeaderSize ==> r == Failure(BufferUnderrun)
    ensures |p| >= QueryHeaderSize ==>
      (r.Success? <==> QueryHeaderSize + 4 * (U16At(p, 10) as int) <= |p|)
    ensures r.Failure? && |p| >= QueryHeaderSize ==> r.error == DeclaredLengthExceedsBuffer
    ensures r.Success? ==>
      && r.value.mrc == p[1] && r.value.group == U32At(p, 4)
      && r.value.flags == p[8] && r.value.qqic == p[9]
      && |r.value.sources| == U16At(p, 10)
      && forall k :: 0 <= k < |r.value.sources| ==>
           r.value.sources[k] == U32At(p, QueryHeaderSize + 4 * k)
  {
    if |p| < QueryHeaderSize then Failure(BufferUnderrun)
    else
      var iq := QueryHeaderAt(p, 0);
      if |p| - QueryHeaderSize < 4 * (iq.nsrc as int) then Failure(DeclaredLengthExceedsBuffer)
      else Success(Query(iq.mrc, iq.group, iq.flags, iq.qqic, AddrsAt(p, QueryHeaderSize, iq.nsrc)))
  }

  /**
   * `mcast_parse_query` (mcast-query.c:164-186) with a cursor of offset and
   * remaining length. The C prints `&data`, the pointer's own bytes, where it
   * means the source at `data` (line 181), and runs past the end of a buffer
   * shorter than its `nsrc` declares; here source `i` is read from bytes
   * 12+4i..15+4i, and the declared list is checked against what remains
   * before the loop starts.
   */
  method ParseQuery(p: seq<byte>) returns (r: Result<Query>)
    ensures r == DecodeQuery(p)
  {
    if |p| < QueryHeaderSize {
      return Failure(BufferUnderrun);
    }
    var iq := QueryHeaderAt(p, 0);
    var off, rem := QueryHeaderSize, |p| - QueryHeaderSize;
    if rem < 4 * (iq.nsrc as int) {
      return Failure(DeclaredLengthExceedsBuffer);
    }
    var sources := ReadAddrs(p, off, iq.nsrc);
    return Success(Query(iq.mrc, iq.group, iq.flags, iq.qqic, sources));
  }

  /** The wire form of a query with checksum field `cksum`: the layout of `struct igmpv3_query` plus its sources. */
  function EncodeQuery(q: Query, cksum: u16): (r: seq<byte>)
    requires |q.sources| < 0x1_0000
    ensures |r| == QueryHeaderSize + 4 * |q.sources|
    ensures r[0] == MembershipQuery && U16At(r, 2) == cksum
  {
    QueryHeaderBytes(QueryHeader(MembershipQuery, q.mrc, cksum, q.group, q.flags, q.qqic, |q.sources|))
      + AddrBytes(q.sources)
  }

  /** Decoding an encoded query gives back every field and the source list in order. */
  lemma QueryRoundTrip(q: Query, cksum: u16)
    requires |q.sources| < 0x1_0000
    ensures DecodeQuery(EncodeQuery(q, cksum)) == Success(q)
  {
    var h := QueryHeader(MembershipQuery, q.mrc, cksum, q.group, q.flags, q.qqic, |q.sources|);
    var p := EncodeQuery(q, cksum);
    assert QueryHeaderAt(p, 0) == QueryHeaderAt(QueryHeaderBytes(h), 0);
    AddrsRoundTrip(QueryHeaderBytes(h), q.sources, []);
    assert p == QueryHeaderBytes(h) + AddrBytes(q.sources) + [];
  }

  /**
   * The other direction: a decoded query, re-encoded with the checksum it
   * carried, gives back the bytes it was decoded from, up to the end of its
   * source list.
   */
  lemma QueryReencode(p: seq<byte>)
    requires |p| > 0 && p[0] == MembershipQuery
    requires DecodeQuery(p).Success?
    ensures EncodeQuery(DecodeQuery(p).value, U16At(p, 2))
         == p[..QueryHeaderSize + 4 * (U16At(p, 10) as int)]
  {
    var q := DecodeQuery(p).value;
    var n: int := U16At(p, 10);
    var e := EncodeQuery(q, U16At(p, 2));
    QueryHeaderBytesAt(p, 0);
    assert QueryHeaderAt(p, 0) == QueryHeader(MembershipQuery, q.mrc, U16At(p, 2), q.group, q.flags, q.qqic, n);
    AddrBytesOf(p, QueryHeaderSize, n);
    assert p[..QueryHeaderSize + 4 * n] == p[..QueryHeaderSize] + p[QueryHeaderSize..QueryHeaderSize + 4 * n];
  }

  /** The checksum field takes no part in decoding: overwriting it changes nothing that is decoded. */
  lemma DecodeIgnoresChecksum(p: seq<byte>, v: u16)
    requires |p| >= 4
    ensures DecodeQuery(p[..2] + U16Bytes(v) + p[4..]) == DecodeQuery(p)
  {
    var p' := p[..2] + U16Bytes(v) + p[4..];
    assert p'[4..] == p[4..];
    if |p| >= QueryHeaderSize {
      assert p'[0] == p[0] && p'[1] == p[1];
      assert p'[4] == p[4] && p'[5] == p[5] && p'[6] == p[6] && p'[7] == p[7];
      assert p'[8] == p[8] && p'[9] == p[9] && p'[10] == p[10] && p'[11] == p[11];
      var n := U16At(p, 10);
      if QueryHeaderSize + 4 * (n as int) <= |p| {
        var a, a' := AddrsAt(p, QueryHeaderSize, n), AddrsAt(p', QueryHeaderSize, n);
        forall k | 0 <= k < n ensures a'[k] == a[k] {
          var o := QueryHeaderSize + 4 * k;
          assert p'[o..o + 4] == p[o..o + 4];
        }
        assert a' == a;
      }
    }
  }
}
