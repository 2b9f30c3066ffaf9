/**
 * Decoding of an IGMPv3 Membership Report (RFC 3376 section 4.2),
 * `mcast_parse_report` in mcast-query.c: the 8-byte `struct igmpv3_report`,
 * then `nrec` Group Records, each an 8-byte `struct igmp_record`, `nsrc`
 * source addresses and 4 * auxlen bytes of auxiliary data.
 */
module ReportDecode {
  import opened Wire
  import opened Igmp

  /**
   * The Group Record at `off` and the offset just past it. A header that does
   * not fit, a source list longer than what remains, and auxiliary data longer
   * than what then remains are each rejected.
   */
  function RecordAt(p: seq<byte>, off: nat): (r: Result<(GroupRecord, nat)>)
    requires off <= |p|
    ensures |p| - off < RecordHeaderSize ==> r == Failure(BufferUnderrun)
    ensures |p| - off >= RecordHeaderSize ==>
      && (r.Success? <==> off + RecordRawSize(p, off) <= |p|)
      && (r.Failure? ==> r.error == DeclaredLengthExceedsBuffer)
    ensures r.Success? ==> off + RecordHeaderSize <= r.value.1 <= |p|
  {
    if |p| - off < RecordHeaderSize then Failure(BufferUnderrun)
    else
      var gr := RecordHeaderAt(p, off);
      var srcStart := off + RecordHeaderSize;
      if |p| - srcStart < 4 * (gr.nsrc as int) then Failure(DeclaredLengthExceedsBuffer)
      else
        var auxStart := srcStart + 4 * (gr.nsrc as int);
        if |p| - auxStart < 4 * (gr.auxlen as int) then Failure(DeclaredLengthExceedsBuffer)
        else
          var next := auxStart + 4 * (gr.auxlen as int);
          Success((GroupRecord(gr.gtype, gr.group, AddrsAt(p, srcStart, gr.nsrc), p[auxStart..next]), next))
  }

  /** The bytes a record at `off` declares it takes: header, sources, auxiliary words. */
  function RecordRawSize(p: seq<byte>, off: nat): (n: nat)
    requires off + RecordHeaderSize <= |p|
  {
    var gr := RecordHeaderAt(p, off);
    RecordHeaderSize + 4 * (gr.nsrc as int) + 4 * (gr.auxlen as int)
  }

  /**
   * Where the fields of a decoded record come from: type at 0, auxlen at 1,
   * nsrc at 2-3, group at 4-7, source k at 8+4k, then the auxiliary words,
   * and the next record right after them.
   */
  lemma RecordLayout(p: seq<byte>, off: nat)
    requires off <= |p| && RecordAt(p, off).Success?
    ensures var (g, next) := RecordAt(p, off).value;
      var srcEnd := off + RecordHeaderSize + 4 * |g.sources|;
      && g.rtype == p[off] && g.group == U32At(p, off + 4)
      && |g.sources| == U16At(p, off + 2)
      && (forall k :: 0 <= k < |g.sources| ==>
            g.sources[k] == U32At(p, off + RecordHeaderSize + 4 * k))
      && |g.aux| == 4 * (p[off + 1] as int)
      && next == srcEnd + |g.aux| == off + RecordRawSize(p, off) && g.aux == p[srcEnd..next]
  {
  }

  /** A record whose declared sources and auxiliary data fit ends at the offset they declare. */
  lemma RecordAtFits(p: seq<byte>, off: nat, next: nat)
    requires off + RecordHeaderSize <= |p| && next <= |p|
    requires next == off + RecordRawSize(p, off)
    ensures var gr := RecordHeaderAt(p, off);
      var auxStart := off + RecordHeaderSize + 4 * (gr.nsrc as int);
      RecordAt(p, off) == Success((GroupRecord(gr.gtype, gr.group,
        AddrsAt(p, off + RecordHeaderSize, gr.nsrc), p[auxStart..next]), next))
  {
  }

  /** `n` consecutive Group Records from `off`, in wire order; the first that does not fit fails the lot. */
  function DecodeRecords(p: seq<byte>, off: nat, n: nat): (r: Result<seq<GroupRecord>>)
    requires off <= |p|
    ensures r.Success? ==> |r.value| == n
    ensures r.Failure? ==> r.error == BufferUnderrun || r.error == DeclaredLengthExceedsBuffer
    decreases n
  {
    if n == 0 then Success([])
    else
      match RecordAt(p, off)
      case Failure(e) => Failure(e)
      case Success((g, next)) => Prepend([g], DecodeRecords(p, next, n - 1))
  }

  /** A decode of `n` records is the first record followed by the decode of the other `n - 1`. */
  lemma DecodeRecordsCons(p: seq<byte>, off: nat, n: nat)
    requires off <= |p| && n > 0
    ensures RecordAt(p, off).Success? ==>
      DecodeRecords(p, off, n)
        == Prepend([RecordAt(p, off).value.0], DecodeRecords(p, RecordAt(p, off).value.1, n - 1))
    ensures RecordAt(p, off).Failure? ==> DecodeRecords(p, off, n) == Failure(RecordAt(p, off).error)
  {
  }

  /**
   * One turn of the record loop seen from the records decoded so far: a record
   * that fits moves from the rest of the decode to the end of `records`, and
   * one that does not fails the whole decode with its error.
   */
  lemma DecodeRecordsStep(p: seq<byte>, off: nat, n: nat, records: seq<GroupRecord>)
    requires off <= |p| && n > 0
    ensures RecordAt(p, off).Failure? ==>
      Prepend(records, DecodeRecords(p, off, n)) == Failure(RecordAt(p, off).error)
    ensures RecordAt(p, off).Success? ==>
      var (g, next) := RecordAt(p, off).value;
      Prepend(records, DecodeRecords(p, off, n)) == Prepend(records + [g], DecodeRecords(p, next, n - 1))
  {
    DecodeRecordsCons(p, off, n);
    if RecordAt(p, off).Success? {
      var (g, next) := RecordAt(p, off).value;
      PrependAssoc(records, [g], DecodeRecords(p, next, n - 1));
    }
  }

  /** A record that fits, followed by `n - 1` that decode, decodes as `n` records. */
  lemma DecodeRecordsSuccess(p: seq<byte>, off: nat, n: nat, rest: seq<GroupRecord>)
    requires off <= |p| && n > 0 && RecordAt(p, off).Success?
    requires DecodeRecords(p, RecordAt(p, off).value.1, n - 1) == Success(rest)
    ensures DecodeRecords(p, off, n) == Success([RecordAt(p, off).value.0] + rest)
  {
  }

  /** `prefix` followed by the records of a successful decode; a failure stays a failure. */
  function Prepend(prefix: seq<GroupRecord>, r: Result<seq<GroupRecord>>): (r': Result<seq<GroupRecord>>)
    ensures r'.Success? <==> r.Success?
    ensures r.Failure? ==> r' == r
    ensures r.Success? ==> r'.value == prefix + r.value
    ensures prefix == [] ==> r' == r
  {
    if prefix == [] && r.Success? then assert [] + r.value == r.value; r
    else match r
    case Success(rest) => Success(prefix + rest)
    case Failure(e) => Failure(e)
  }

  lemma PrependAssoc(a: seq<GroupRecord>, b: seq<GroupRecord>, r: Result<seq<GroupRecord>>)
    ensures Prepend(a, Prepend(b, r)) == Prepend(a + b, r)
  {
    if r.Success? {
      assert a + (b + r.value) == (a + b) + r.value;
    }
  }

  /**
   * The reference decoding of a v3 report payload: rejected if shorter than the
   * 8-byte header, otherwise the `nrec` records that follow it, all or nothing.
   */
  function DecodeReport(p: seq<byte>): (r: Result<seq<GroupRecord>>)
    ensures |p| < ReportHeaderSize ==> r == Failure(BufferUnderrun)
    ensures r.Success? ==> |r.value| == U16At(p, 6)
    ensures r.Failure? ==> r.error == BufferUnderrun || r.error == DeclaredLengthExceedsBuffer
  {
    if |p| < ReportHeaderSize then Failure(BufferUnderrun)
    else DecodeRecords(p, ReportHeaderSize, ReportHeaderAt(p, 0).nrec)
  }

  /**
   * One pass of the record loop of `mcast_parse_report` (mcast-query.c:207-248):
   * the record header at the cursor, its sources, and then, unlike the C,
   * its auxiliary data, each checked against the remaining length `rem`
   * before the cursor moves past it.
   */
  method ReadRecord(p: seq<byte>, off: nat, rem: nat) returns (r: Result<(GroupRecord, nat)>)
    requires off + rem == |p|
    ensures r == RecordAt(p, off)
  {
    if rem < RecordHeaderSize {
      return Failure(BufferUnderrun);
    }
    var start := off;
    var gr := RecordHeaderAt(p, off);
    var off: nat, rem: nat := off + RecordHeaderSize, rem - RecordHeaderSize;
    if rem < 4 * (gr.nsrc as int) {
      return Failure(DeclaredLengthExceedsBuffer);
    }
    var sources := ReadAddrs(p, off, gr.nsrc);
    off, rem := off + 4 * (gr.nsrc as int), rem - 4 * (gr.nsrc as int);
    var auxBytes := 4 * (gr.auxlen as int);
    if rem < auxBytes {
      return Failure(DeclaredLengthExceedsBuffer);
    }
    var aux := p[off..off + auxBytes];
    off := off + auxBytes;
    RecordAtFits(p, start, off);
    return Success((GroupRecord(gr.gtype, gr.group, sources, aux), off));
  }

  /**
   * `mcast_parse_report` (mcast-query.c:188-250): a pointer `off` and a length
   * `rem` move together through the records, and every early `return` of the
   * C is a `Failure` here, so no partly decoded report escapes. Unlike the C,
   * the auxiliary data that `gr_auxlen` declares is bounds-checked and skipped
   * after the sources (RFC 3376 sections 4.2.6 and 4.2.10); the C never reads
   * `gr_auxlen`.
   */
  method ParseReport(p: seq<byte>) returns (r: Result<seq<GroupRecord>>)
    ensures r == DecodeReport(p)
  {
    if |p| < ReportHeaderSize {
      return Failure(BufferUnderrun);
    }
    var ir := ReportHeaderAt(p, 0);
    var off: nat, rem: nat := ReportHeaderSize, |p| - ReportHeaderSize;
    var records: seq<GroupRecord> := [];
    var nrecs: nat := ir.nrec;
    ghost var whole := DecodeReport(p);
    assert whole == DecodeRecords(p, off, nrecs);
    while nrecs > 0
      invariant off + rem == |p|
      invariant Prepend(records, DecodeRecords(p, off, nrecs)) == whole
    {
      var step := ReadRecord(p, off, rem);
      DecodeRecordsStep(p, off, nrecs, records);
      if step.Failure? {
        return Failure(step.error);
      }
      var (g, next) := step.value;
      records := records + [g];
      off, rem, nrecs := next, |p| - next, nrecs - 1;
      assert Prepend(records, DecodeRecords(p, off, nrecs)) == whole;
    }
    assert records + [] == records;
    return Success(records);
  }

  /** A record that has a wire form: counts that fit their 16- and 8-bit fields, and whole auxiliary words. */
  predicate Encodable(g: GroupRecord)
  {
    |g.sources| < 0x1_0000 && |g.aux| % 4 == 0 && |g.aux| / 4 < 0x100
  }

  /** Every record of a list has a wire form. */
  predicate AllEncodable(gs: seq<GroupRecord>)
  {
    forall i :: 0 <= i < |gs| ==> Encodable(gs[i])
  }

  /** The wire form of one Group Record: `struct igmp_record`, the sources, the auxiliary data. */
  function EncodeRecord(g: GroupRecord): (r: seq<byte>)
    requires Encodable(g)
    ensures |r| == RecordHeaderSize + 4 * |g.sources| + |g.aux|
  {
    RecordHeaderBytes(RecordHeader(g.rtype, |g.aux| / 4, |g.sources|, g.group))
      + AddrBytes(g.sources) + g.aux
  }

  function EncodeRecords(gs: seq<GroupRecord>): (r: seq<byte>)
    requires AllEncodable(gs)
  {
    if gs == [] then [] else EncodeRecord(gs[0]) + EncodeRecords(gs[1..])
  }

  /** The wire form of a report with checksum field `cksum` and zero reserved fields. */
  function EncodeReport(gs: seq<GroupRecord>, cksum: u16): (r: seq<byte>)
    requires |gs| < 0x1_0000 && AllEncodable(gs)
    ensures |r| >= ReportHeaderSize && r[0] == V3MembershipReport && U16At(r, 2) == cksum
  {
    ReportHeaderBytes(ReportHeader(V3MembershipReport, 0, cksum, 0, |gs|)) + EncodeRecords(gs)
  }

  /** An encoded record decodes back to itself wherever it sits, and ends where its encoding ends. */
  lemma RecordRoundTrip(p: seq<byte>, off: nat, g: GroupRecord)
    requires Encodable(g) && EncodedAt(p, off, EncodeRecord(g))
    ensures RecordAt(p, off) == Success((g, off + |EncodeRecord(g)|))
  {
    RecordPartsAt(p, off, g);
    RecordAtFits(p, off, off + |EncodeRecord(g)|);
  }

  /** The header, the sources and the auxiliary data of an encoded record, read where they sit. */
  lemma RecordPartsAt(p: seq<byte>, off: nat, g: GroupRecord)
    requires Encodable(g) && EncodedAt(p, off, EncodeRecord(g))
    ensures off + RecordHeaderSize <= |p|
    ensures RecordHeaderAt(p, off) == RecordHeader(g.rtype, |g.aux| / 4, |g.sources|, g.group)
    ensures AddrsAt(p, off + RecordHeaderSize, |g.sources|) == g.sources
    ensures off + |EncodeRecord(g)| == off + RecordRawSize(p, off)
    ensures p[off + RecordHeaderSize + 4 * |g.sources|..off + |EncodeRecord(g)|] == g.aux
  {
    var e := EncodeRecord(g);
    var h := RecordHeader(g.rtype, |g.aux| / 4, |g.sources|, g.group);
    var s := RecordHeaderSize + 4 * |g.sources|;
    assert RecordHeaderAt(p, off) == h by {
      assert e[0..RecordHeaderSize] == RecordHeaderBytes(h);
      SliceWithin(p, off, e, 0, RecordHeaderSize);
      RecordHeaderIn(p, off, RecordHeaderBytes(h));
    }
    assert AddrsAt(p, off + RecordHeaderSize, |g.sources|) == g.sources by {
      assert e[RecordHeaderSize..s] == AddrBytes(g.sources);
      SliceWithin(p, off, e, RecordHeaderSize, s);
      AddrsAtOf(p, off + RecordHeaderSize, g.sources);
    }
    assert p[off + s..off + |e|] == g.aux by {
      assert e[s..|e|] == g.aux;
      SliceWithin(p, off, e, s, |e|);
    }
    assert 4 * (|g.aux| / 4) == |g.aux|;
  }

  /**
   * The other direction: a decoded record has a wire form, and re-encoding it
   * gives back exactly the bytes it was decoded from.
   */
  lemma RecordReencode(p: seq<byte>, off: nat)
    requires off <= |p| && RecordAt(p, off).Success?
    ensures var (g, next) := RecordAt(p, off).value;
      Encodable(g) && EncodeRecord(g) == p[off..next]
  {
    var (g, next) := RecordAt(p, off).value;
    RecordLayout(p, off);
    var hdr := RecordHeaderAt(p, off);
    var srcStart := off + RecordHeaderSize;
    var srcEnd := srcStart + 4 * |g.sources|;
    assert |g.aux| / 4 == hdr.auxlen;
    assert RecordHeader(g.rtype, |g.aux| / 4, |g.sources|, g.group) == hdr;
    RecordHeaderBytesAt(p, off);
    AddrBytesOf(p, srcStart, hdr.nsrc);
    assert p[off..next] == p[off..srcStart] + p[srcStart..srcEnd] + p[srcEnd..next];
  }

  /** A record header read from inside a larger buffer is the header at that spot. */
  lemma RecordHeaderIn(p: seq<byte>, off: nat, hb: seq<byte>)
    requires |hb| == RecordHeaderSize && EncodedAt(p, off, hb)
    ensures RecordHeaderAt(p, off) == RecordHeaderAt(hb, 0)
  {
    assert forall i :: 0 <= i < RecordHeaderSize ==> p[off + i] == hb[i];
  }

  /** Encoded records decode back to the same list, in the same order, wherever they sit. */
  lemma RecordsRoundTrip(p: seq<byte>, off: nat, gs: seq<GroupRecord>)
    requires AllEncodable(gs)
    requires EncodedAt(p, off, EncodeRecords(gs))
    ensures DecodeRecords(p, off, |gs|) == Success(gs)
  {
    EncodedChain(p, off, gs);
    ChainDecodes(p, off, gs);
  }

  /** `gs` are the records that `RecordAt` finds one after another from `off`. */
  predicate RecordChain(p: seq<byte>, off: nat, gs: seq<GroupRecord>)
    requires off <= |p|
    decreases |gs|
  {
    gs == [] ||
    (RecordAt(p, off).Success? && RecordAt(p, off).value.0 == gs[0]
     && RecordChain(p, RecordAt(p, off).value.1, gs[1..]))
  }

  /** Records found one after another are what `DecodeRecords` returns. */
  lemma {:induction false} ChainDecodes(p: seq<byte>, off: nat, gs: seq<GroupRecord>)
    requires off <= |p| && RecordChain(p, off, gs)
    ensures DecodeRecords(p, off, |gs|) == Success(gs)
    decreases |gs|
  {
    if gs != [] {
      var next := RecordAt(p, off).value.1;
      ChainDecodes(p, next, gs[1..]);
      DecodeRecordsSuccess(p, off, |gs|, gs[1..]);
      assert [gs[0]] + gs[1..] == gs;
    }
  }

  /**
   * The converse: a successful decode of `n` records is exactly the records
   * the record step finds one after another from `off`.
   */
  lemma {:induction false} DecodedChain(p: seq<byte>, off: nat, n: nat)
    requires off <= |p| && DecodeRecords(p, off, n).Success?
    ensures RecordChain(p, off, DecodeRecords(p, off, n).value)
    decreases n
  {
    if n > 0 {
      var (g, next) := RecordAt(p, off).value;
      DecodedChain(p, next, n - 1);
      var gs := DecodeRecords(p, off, n).value;
      assert gs == [g] + DecodeRecords(p, next, n - 1).value;
      assert gs[1..] == DecodeRecords(p, next, n - 1).value;
    }
  }

  /** `DecodeRecords` succeeds with `gs` exactly when `gs` is the chain of records found from `off`. */
  lemma DecodeIffChain(p: seq<byte>, off: nat, gs: seq<GroupRecord>)
    requires off <= |p|
    ensures DecodeRecords(p, off, |gs|) == Success(gs) <==> RecordChain(p, off, gs)
  {
    if RecordChain(p, off, gs) {
      ChainDecodes(p, off, gs);
    }
    if DecodeRecords(p, off, |gs|) == Success(gs) {
      DecodedChain(p, off, |gs|);
    }
  }

  /** Encoded records are found one after another where they sit. */
  lemma {:induction false} EncodedChain(p: seq<byte>, off: nat, gs: seq<GroupRecord>)
    requires AllEncodable(gs)
    requires EncodedAt(p, off, EncodeRecords(gs))
    ensures RecordChain(p, off, gs)
    decreases |gs|
  {
    if gs != [] {
      var next := off + |EncodeRecord(gs[0])|;
      assert RecordAt(p, off).Success? && RecordAt(p, off).value.0 == gs[0] && RecordAt(p, off).value.1 == next by {
        RecordsSplitAt(p, off, gs);
        RecordRoundTrip(p, off, gs[0]);
      }
      assert RecordChain(p, next, gs[1..]) by {
        RecordsSplitAt(p, off, gs);
        EncodedChain(p, next, gs[1..]);
      }
    }
  }

  /**
   * Encoded records that sit at `off` are the first record's encoding there,
   * then the others' encoding from the offset where it ends.
   */
  lemma RecordsSplitAt(p: seq<byte>, off: nat, gs: seq<GroupRecord>)
    requires gs != [] && AllEncodable(gs)
    requires EncodedAt(p, off, EncodeRecords(gs))
    ensures Encodable(gs[0]) && EncodedAt(p, off, EncodeRecord(gs[0]))
    ensures AllEncodable(gs[1..])
    ensures EncodedAt(p, off + |EncodeRecord(gs[0])|, EncodeRecords(gs[1..]))
  {
    EncodableTail(gs);
    var x, y := EncodeRecord(gs[0]), EncodeRecords(gs[1..]);
    var e := EncodeRecords(gs);
    assert e == x + y;
    assert e[0..|x|] == x && e[|x|..|e|] == y;
    SliceWithin(p, off, e, 0, |x|);
    SliceWithin(p, off, e, |x|, |e|);
  }

  /** The records after the first of an encodable list are encodable. */
  lemma EncodableTail(gs: seq<GroupRecord>)
    requires gs != [] && AllEncodable(gs)
    ensures AllEncodable(gs[1..])
  {
    forall i | 0 <= i < |gs| - 1 ensures Encodable(gs[1..][i]) {
      assert gs[1..][i] == gs[i + 1];
    }
  }

  /** An encoded report, with anything after it, decodes back to its records. */
  lemma ReportRoundTrip(gs: seq<GroupRecord>, cksum: u16, post: seq<byte>)
    requires |gs| < 0x1_0000 && AllEncodable(gs)
    ensures DecodeReport(EncodeReport(gs, cksum) + post) == Success(gs)
  {
    var hb := ReportHeaderBytes(ReportHeader(V3MembershipReport, 0, cksum, 0, |gs|));
    var e := EncodeRecords(gs);
    var p := EncodeReport(gs, cksum) + post;
    assert p == hb + e + post;
    assert p[..ReportHeaderSize] == hb;
    assert ReportHeaderAt(p, 0) == ReportHeaderAt(hb, 0);
    assert EncodedAt(p, ReportHeaderSize, e);
    RecordsRoundTrip(p, ReportHeaderSize, gs);
  }

  // The report decoder as the C writes it, which never skips auxiliary data.

  /** The C's record step (mcast-query.c:207-248): header and sources only; `gr_auxlen` is never read. */
  function RecordAtAsWritten(p: seq<byte>, off: nat): (r: Result<(GroupRecord, nat)>)
    requires off <= |p|
    ensures |p| - off < RecordHeaderSize ==> r == Failure(BufferUnderrun)
    ensures |p| - off >= RecordHeaderSize ==>
      && (r.Success? <==> off + RecordHeaderSize + 4 * (U16At(p, off + 2) as int) <= |p|)
      && (r.Failure? ==> r.error == DeclaredLengthExceedsBuffer)
    ensures r.Success? ==>
      && off + RecordHeaderSize <= |p| && r.value.1 == off + RecordHeaderSize + 4 * (U16At(p, off + 2) as int) <= |p|
      && r.value.0.rtype == p[off] && r.value.0.group == U32At(p, off + 4)
      && r.value.0.sources == AddrsAt(p, off + RecordHeaderSize, U16At(p, off + 2))
      && r.value.0.aux == []
  {
    if |p| - off < RecordHeaderSize then Failure(BufferUnderrun)
    else
      var gr := RecordHeaderAt(p, off);
      var srcStart := off + RecordHeaderSize;
      if |p| - srcStart < 4 * (gr.nsrc as int) then Failure(DeclaredLengthExceedsBuffer)
      else Success((GroupRecord(gr.gtype, gr.group, AddrsAt(p, srcStart, gr.nsrc), []),
                    srcStart + 4 * (gr.nsrc as int)))
  }

  function DecodeRecordsAsWritten(p: seq<byte>, off: nat, n: nat): (r: Result<seq<GroupRecord>>)
    requires off <= |p|
    ensures r.Success? ==> |r.value| == n
    ensures r.Failure? ==> r.error == BufferUnderrun || r.error == DeclaredLengthExceedsBuffer
    decreases n
  {
    if n == 0 then Success([])
    else
      match RecordAtAsWritten(p, off)
      case Failure(e) => Failure(e)
      case Success((g, next)) => Prepend([g], DecodeRecordsAsWritten(p, next, n - 1))
  }

  function DecodeReportAsWritten(p: seq<byte>): (r: Result<seq<GroupRecord>>)
    ensures |p| < ReportHeaderSize ==> r == Failure(BufferUnderrun)
    ensures r.Success? ==> |r.value| == U16At(p, 6)
    ensures r.Failure? ==> r.error == BufferUnderrun || r.error == DeclaredLengthExceedsBuffer
  {
    if |p| < ReportHeaderSize then Failure(BufferUnderrun)
    else DecodeRecordsAsWritten(p, ReportHeaderSize, ReportHeaderAt(p, 0).nrec)
  }

  /**
   * A report of two records, the first carrying one word of auxiliary data
   * (4, 0, 0, 0), the second of type 2 for group 224.0.0.6.
   */
  function AuxExample(): (p: seq<byte>)
    ensures |p| == 28
  {
    [0x22, 0, 0, 0, 0, 0, 0, 2,
     1, 1, 0, 0, 224, 0, 0, 5, 4, 0, 0, 0,
     2, 0, 0, 0, 224, 0, 0, 6]
  }

  /** The C's record step reads the auxiliary word and half of the second header as a record. */
  lemma AuxExampleAsWrittenSteps()
    ensures RecordAtAsWritten(AuxExample(), 8) == Success((GroupRecord(1, 0xe000_0005, [], []), 16))
    ensures RecordAtAsWritten(AuxExample(), 16) == Success((GroupRecord(4, 0x0200_0000, [], []), 24))
  {
    var p := AuxExample();
    assert RecordAtAsWritten(p, 8) == Success((GroupRecord(1, 0xe000_0005, [], []), 16)) by {
      assert RecordHeaderAt(p, 8) == RecordHeader(1, 1, 0, 0xe000_0005);
    }
    assert RecordAtAsWritten(p, 16) == Success((GroupRecord(4, 0x0200_0000, [], []), 24)) by {
      assert RecordHeaderAt(p, 16) == RecordHeader(4, 0, 0, 0x0200_0000);
    }
  }

  /** The record step that skips auxiliary data finds the two records the sender wrote. */
  lemma AuxExampleSteps()
    ensures RecordAt(AuxExample(), 8) == Success((GroupRecord(1, 0xe000_0005, [], [4, 0, 0, 0]), 20))
    ensures RecordAt(AuxExample(), 20) == Success((GroupRecord(2, 0xe000_0006, [], []), 28))
  {
    var p := AuxExample();
    assert RecordAt(p, 8) == Success((GroupRecord(1, 0xe000_0005, [], [4, 0, 0, 0]), 20)) by {
      assert RecordHeaderAt(p, 8) == RecordHeader(1, 1, 0, 0xe000_0005);
      assert p[16..20] == [4, 0, 0, 0];
      RecordAtFits(p, 8, 20);
    }
    assert RecordAt(p, 20) == Success((GroupRecord(2, 0xe000_0006, [], []), 28)) by {
      assert RecordHeaderAt(p, 20) == RecordHeader(2, 0, 0, 0xe000_0006);
      assert p[28..28] == [];
      RecordAtFits(p, 20, 28);
    }
  }

  /**
   * The C reads the auxiliary word of the first record as the next record's
   * header, so it reports a record of type 4 for group 2.0.0.0 in place of
   * the real second record.
   */
  lemma AuxDataMisread()
    ensures DecodeReportAsWritten(AuxExample())
         == Success([GroupRecord(1, 0xe000_0005, [], []), GroupRecord(4, 0x0200_0000, [], [])])
  {
    var p := AuxExample();
    var g1, g2 := GroupRecord(1, 0xe000_0005, [], []), GroupRecord(4, 0x0200_0000, [], []);
    AuxExampleAsWrittenSteps();
    assert ReportHeaderAt(p, 0).nrec == 2;
    assert DecodeRecordsAsWritten(p, 24, 0) == Success([]);
    assert [g2] + [] == [g2] && [g1] + [g2] == [g1, g2];
    assert DecodeRecordsAsWritten(p, 16, 1) == Success([g2]);
  }

  /** Skipping the auxiliary data decodes the same report correctly. */
  lemma AuxDataSkipped()
    ensures DecodeReport(AuxExample())
         == Success([GroupRecord(1, 0xe000_0005, [], [4, 0, 0, 0]), GroupRecord(2, 0xe000_0006, [], [])])
  {
    var p := AuxExample();
    var g1, g2 := GroupRecord(1, 0xe000_0005, [], [4, 0, 0, 0]), GroupRecord(2, 0xe000_0006, [], []);
    AuxExampleSteps();
    assert ReportHeaderAt(p, 0).nrec == 2;
    DecodeRecordsCons(p, 8, 2);
    DecodeRecordsCons(p, 20, 1);
    assert DecodeRecords(p, 28, 0) == Success([]);
    assert [g2] + [] == [g2] && [g1] + [g2] == [g1, g2];
  }
}
