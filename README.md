# IGMP wire-format codec, modelled in Dafny

This project models the IGMP codec of the `mcast-query` tool:
- the receive path `mcast_parse` skips the IPv4 header of a datagram and classifies the IGMP message behind it;
- it hands IGMPv3 Membership Queries to `mcast_parse_query` and IGMPv3 Membership Reports to `mcast_parse_report` (RFC 3376 sections 4.1 and 4.2);
- the Internet checksum `in_cksum` follows RFC 1071;
- the send path `mcast_send_query` fills a 12-byte IGMPv3 General Query and stamps its checksum.

The layouts of `igmp.h` become datatypes:
- `struct igmpv3_query`, `struct igmpv3_report` and `struct igmp_record`, each with a reader (the C's pointer cast) and a writer (the bytes of the filled struct);
- the report type 0x22 and the six Group Record types.

Every decoder is modelled twice:
- as a reference function (`DecodeQuery`, `DecodeReport`, `Parse`, `Checksum`);
- as a method that follows the C's steps (`ParseQuery`, `ParseReport`, `ParseMessage`, `InCksum`): the source, record and word loops walk an (offset, remaining) cursor, and `ParseMessage` moves the data pointer and length past the IP header and switches on the type byte.

Each method's ensures states that it computes exactly the reference function. The reference functions are then tied to encoders by round-trip lemmas. Headers, address lists, queries and group records have both directions: decoding an encoding gives the value back, and re-encoding a decoded value gives the bytes it was read from. Reports and whole datagrams have the decode-after-encode direction; `ParsePayload` states that a datagram parses exactly as its payload classifies.

Where the C prints, the model returns the decoded value. Every early `return` of the C is a `Failure` with an error kind:
- `ShortPacket`: the datagram is shorter than an IP header.
- `HeaderLengthExceedsPacket`: the IP header length points past the end of the datagram.
- `BufferUnderrun`: a fixed-size header does not fit in the bytes left.
- `DeclaredLengthExceedsBuffer`: a counted list does not fit in the bytes left.
- `UnknownType`: a type byte the switch has no case for.

So no partly decoded message is ever returned.

Files and modules:
- `wire.dfy` (`Wire`): bytes, 16/32-bit big-endian fields, address lists, results.
- `igmp.dfy` (`Igmp`): the layouts and constants of `igmp.h`.
- `query.dfy` (`QueryDecode`): the v3 query decoder and encoder.
- `report.dfy` (`ReportDecode`): the v3 report decoder and encoder, and the report decoder as the C writes it.
- `checksum.dfy` (`InternetChecksum`): `in_cksum`.
- `parse.dfy` (`Dispatch`): `mcast_parse`.
- `send_query.dfy` (`GeneralQuery`): the General Query built by `mcast_send_query`.

Where the model departs from the C, it follows the intent of the code and RFC 3376:
- **Short inputs are rejected.** The model rejects:
  - a header length beyond the datagram (mcast-query.c:129-130);
  - an empty payload (line 138);
  - a legacy query or report shorter than the 8 bytes of `struct igmp` (lines 145, 155-156);
  - a query whose `nsrc` sources do not fit. The loop at lines 180-185 never checks this.
- **Query sources are read from the buffer.** Source `i` is read from bytes 12+4i..15+4i. Line 181 passes `&data`, the pointer's own bytes, to `inet_ntop`.
- **Auxiliary data is skipped.** The report decoder skips the 4·`gr_auxlen` bytes after each record's sources (RFC 3376 sections 4.2.6 and 4.2.10), with a bounds check. The C never reads `gr_auxlen`. The C's behaviour is kept as `DecodeReportAsWritten`; see Findings.
- **The checksum field is zeroed before summing** (RFC 3376 section 4.1.2). The C sums `iq_cksum` while it is still uninitialised.
- **The checksum uses big-endian words.** The C sums host-order words and stores `~sum` without `htons`. The model sums big-endian words, with an odd trailing byte as the high byte of a zero-padded word. For buffers of even length, `SwappedChecksum` and `HostOrderStamp` prove that both put the same bytes on the wire (RFC 1071 section 2(B)). The only buffer the program checksums is the 12-byte query (mcast-query.c:289).

The General Query is the 12 bytes of `struct igmpv3_query` (mcast-query.c:283-289). It goes to 224.0.0.1, the all-systems group (`htonl(0xe0000001)`, mcast-query.c:295; RFC 3376 section 4.1.12). 224.0.0.22, the group joined at mcast-query.c:71, is only where reports arrive.

## Model

| member | source | states |
|---|---|---|
| Wire.AddrsAt | mcast-query.c:179-185 | exactly `n` addresses, address k being the big-endian word at bytes off+4k..off+4k+3 |
| Wire.ReadAddrs | mcast-query.c:180-185 | the source loop, advancing offset and remaining length by 4 per address, returns exactly `AddrsAt` of the buffer |
| Wire.AddrBytesAt | igmp.h:28 | in an encoded address list, address k occupies bytes 4k..4k+3 |
| Wire.AddrsAtOf | igmp.h:28 | an encoded address list sitting anywhere in a buffer reads back as the same list |
| Wire.AddrsRoundTrip | igmp.h:28 | decoding an encoded address list with any bytes before and after it gives the list back |
| Wire.AddrBytesOf | igmp.h:28 | re-encoding a decoded address list gives the bytes it was read from |
| Wire.U16Bytes | mcast-query.c:177 | `htons` gives two bytes that `ntohs` (`U16At`) reads back as the same value |
| Wire.U32Bytes | igmp.h:24 | `htonl` gives four bytes that `ntohl` (`U32At`) reads back as the same value |
| Wire.U16BytesAt | mcast-query.c:177 | reading a 16-bit field with `ntohs` and writing it back gives the same two bytes |
| Wire.U32BytesAt | igmp.h:24 | reading a 32-bit field and writing it back gives the same four bytes |
| Igmp.QueryHeaderAt | mcast-query.c:174 | the cast to `struct igmpv3_query` reads the type at 0, mrc at 1, the checksum at 2-3, the group at 4-7, flags at 8, qqic at 9 and nsrc at 10-11 |
| Igmp.ReportHeaderAt | mcast-query.c:200 | the cast to `struct igmpv3_report` reads the type at 0, reserved bytes at 1 and 4-5, the checksum at 2-3 and nrec at 6-7 |
| Igmp.QueryHeaderBytes | igmp.h:20-29 | the query struct is 12 bytes: type at 0, mrc at 1, checksum at 2-3, group at 4-7, flags at 8, qqic at 9, nsrc at 10-11, and it reads back as the same struct |
| Igmp.QueryHeaderBytesAt | igmp.h:20-29 | viewing 12 bytes as the query struct and writing it back gives the same bytes |
| Igmp.ReportHeaderBytes | igmp.h:33-40 | the report struct is 8 bytes: type at 0, reserved at 1 and 4-5, checksum at 2-3, nrec at 6-7, and it reads back as the same struct |
| Igmp.ReportHeaderBytesAt | igmp.h:33-40 | viewing 8 bytes as the report struct and writing it back gives the same bytes |
| Igmp.RecordHeaderBytes | igmp.h:55-62 | the record struct is 8 bytes: type at 0, auxlen at 1, nsrc at 2-3, group at 4-7, and it reads back as the same struct |
| Igmp.RecordHeaderBytesAt | mcast-query.c:210 | the cast to `struct igmp_record` reads 8 bytes that, written back as the struct, are the same bytes; with `RecordHeaderBytes` this fixes type at 0, auxlen at 1, nsrc at 2-3 and group at 4-7 |
| Igmp.KindCode | igmp.h:45-53 | every record kind has a type code in 1..6 |
| Igmp.KindOf | igmp.h:45-53 | a type byte names a kind exactly when it is in 1..6, and that kind's code is the byte |
| Igmp.KindCodeInverse | igmp.h:45-53 | code and kind are in one-to-one correspondence |
| Igmp.Category | igmp.h:45-53 | codes 1-2 are current-state, 3-4 filter-mode-change and 5-6 source-list-change records |
| Igmp.Label | mcast-query.c:213-232 | each kind has a five-character label |
| Igmp.LabelInjective | mcast-query.c:213-232 | no two kinds share a label |
| QueryDecode.DecodeQuery | mcast-query.c:171-185 | the decoding fails with an underrun below 12 bytes; from 12 bytes on, it succeeds exactly when 12+4·nsrc bytes are present and otherwise reports the declared length; on success mrc, group, flags and qqic come from bytes 1, 4-7, 8 and 9, and there are exactly nsrc sources, source k from bytes 12+4k..15+4k |
| QueryDecode.ParseQuery | mcast-query.c:164-186 | the imperative decoder with its cursor returns exactly `DecodeQuery` |
| QueryDecode.EncodeQuery | igmp.h:20-29 | an encoded query is 12+4·n bytes, with type 0x11 and the given checksum field |
| QueryDecode.QueryRoundTrip | igmp.h:20-29 | decoding an encoded query gives back every field and the sources in order |
| QueryDecode.QueryReencode | igmp.h:20-29 | re-encoding a decoded query with the checksum it carried gives back the bytes up to the end of its sources |
| QueryDecode.DecodeIgnoresChecksum | mcast-query.c:174-185 | overwriting the checksum field does not change what a query decodes to |
| ReportDecode.RecordAt | mcast-query.c:207-248 | a record fails with an underrun if fewer than 8 bytes remain, and otherwise it fits exactly when its declared sources and auxiliary data fit, failing with the declared length when they do not; the next record starts after its header and within the buffer |
| ReportDecode.RecordLayout | igmp.h:55-62 | a decoded record has type from byte 0, nsrc from bytes 2-3, group from 4-7, source k from 8+4k, and 4·auxlen auxiliary bytes, and the next record starts right after them |
| ReportDecode.RecordPartsAt | igmp.h:55-62 | in an encoded record, the header, the sources and the auxiliary data are read back where they sit |
| ReportDecode.DecodeRecords | mcast-query.c:206-249 | a successful decode of `n` records has exactly `n` of them, and a failure is an underrun or a declared length |
| ReportDecode.DecodeRecordsStep | mcast-query.c:206-249 | one pass of the record loop moves a fitting record from the rest of the decode to the records already read, and a record that does not fit fails the whole decode |
| ReportDecode.DecodeReport | mcast-query.c:197-206 | a report shorter than 8 bytes is an underrun; a successful decode has exactly nrec (bytes 6-7) records; a failure is an underrun or a declared length |
| ReportDecode.ReadRecord | mcast-query.c:207-248 | one record step with a cursor, checking header, sources and auxiliary data against the remaining length, returns exactly `RecordAt` |
| ReportDecode.ParseReport | mcast-query.c:188-250 | the record loop, keeping offset + remaining = payload length, returns exactly `DecodeReport`, all records or an error and never a partial list |
| ReportDecode.EncodeRecord | igmp.h:55-62 | an encoded record is 8 + 4·nsrc + auxiliary bytes long |
| ReportDecode.EncodeReport | igmp.h:33-40 | an encoded report starts with type 0x22 and the given checksum field |
| ReportDecode.RecordRoundTrip | igmp.h:55-62 | an encoded record, wherever it sits, decodes to itself and ends where its encoding ends |
| ReportDecode.RecordReencode | igmp.h:55-62 | a record decoded from a buffer is encodable, and its encoding is exactly the bytes it was decoded from |
| ReportDecode.RecordsRoundTrip | mcast-query.c:206-249 | encoded records, wherever they sit, decode to the same list in the same order |
| ReportDecode.EncodedChain | mcast-query.c:206-249 | encoded records are found one after another by the record step |
| ReportDecode.DecodedChain | mcast-query.c:206-249 | a successful decode of `n` records is the chain of records the record step finds one after another from the start offset |
| ReportDecode.DecodeIffChain | mcast-query.c:206-249 | the record loop succeeds with a list exactly when that list is the chain of records found one after another |
| ReportDecode.ChainDecodes | mcast-query.c:206-249 | records found one after another are exactly what the record loop returns |
| ReportDecode.ReportRoundTrip | igmp.h:33-40 | an encoded report, with any bytes after it, decodes back to its records |
| ReportDecode.RecordAtAsWritten | mcast-query.c:207-248 | the C's record step fails with `BufferUnderrun` below 8 bytes left and with `DeclaredLengthExceedsBuffer` exactly when the nsrc sources do not fit; a success has the header's type and group, the nsrc addresses after the header, no auxiliary data, and ends right after the sources, ignoring auxlen |
| ReportDecode.DecodeRecordsAsWritten | mcast-query.c:206-249 | the C's record loop, on success, gives exactly `n` records, and fails only with `BufferUnderrun` or `DeclaredLengthExceedsBuffer` |
| ReportDecode.DecodeReportAsWritten | mcast-query.c:197-206 | the C's report decoder rejects a report shorter than its header, fails only with `BufferUnderrun` or `DeclaredLengthExceedsBuffer`, and on success gives exactly `nrec` records |
| ReportDecode.AuxExampleAsWrittenSteps | mcast-query.c:235-248 | on the example report, the C's step reads the auxiliary word as the start of a second record of type 4 for group 2.0.0.0 |
| ReportDecode.AuxExampleSteps | mcast-query.c:235-248 | on the example report, skipping the auxiliary data finds the second record at offset 20 |
| ReportDecode.AuxDataMisread | mcast-query.c:235-248 | the C's decoder reports the wrong second record on the example |
| ReportDecode.AuxDataSkipped | igmp.h:57 | the corrected decoder reports the two records the sender wrote |
| InternetChecksum.Fold | mcast-query.c:269-270 | the fold loop ends below 2^16, keeps the value modulo 0xffff, and gives 0 only for 0 |
| InternetChecksum.FoldStep | mcast-query.c:269-270 | one folding step makes the sum smaller but positive and keeps it modulo 0xffff, so the loop terminates |
| InternetChecksum.FoldOnce | mcast-query.c:269-270 | a sum below 0x1ffff needs at most one carry folded back in |
| InternetChecksum.Checksum | mcast-query.c:252-273 | an empty range has checksum 0xffff |
| InternetChecksum.InCksum | mcast-query.c:252-273 | the word loop and the fold loop return exactly `Checksum` of the buffer |
| InternetChecksum.WordSum | mcast-query.c:258-267 | the sum of the buffer's 16-bit words, an odd last byte padded, is at most 0xffff per word |
| InternetChecksum.SumFitsInUint32 | mcast-query.c:256 | on a received packet of at most 1516 bytes, the C's 32-bit `sum` cannot overflow |
| InternetChecksum.WordSumPadded | mcast-query.c:259-261 | an odd trailing byte counts as a zero-padded final word |
| InternetChecksum.ChecksumPadded | mcast-query.c:259-261 | padding an odd-length buffer with a zero byte does not change its checksum |
| InternetChecksum.WordSumAppend | mcast-query.c:258-267 | the word sum of a word-aligned concatenation is the sum of the parts' word sums |
| InternetChecksum.WordSumZero | mcast-query.c:258-267 | the word sum is zero exactly when every byte is zero |
| InternetChecksum.ChecksumAllOnes | mcast-query.c:252-273 | the checksum is 0xffff exactly when every byte is zero |
| InternetChecksum.WordSum12 | mcast-query.c:258-267 | the word sum of 12 bytes is the sum of its six words |
| InternetChecksum.Stamp | mcast-query.c:289 | stamping changes only the two field bytes, which then hold the checksum of the unstamped buffer |
| InternetChecksum.StampedChecksumIsZero | mcast-query.c:289 | if the word-aligned field is zero while the sum is taken, the stamped buffer's checksum recomputes to 0 |
| InternetChecksum.FoldComplement | mcast-query.c:269-272 | a sum plus the complement of its fold folds to 0xffff |
| InternetChecksum.SwappedSumMod | mcast-query.c:255-267 | summing byte-swapped words multiplies the sum by 256 modulo 0xffff and keeps it zero exactly when it was zero |
| InternetChecksum.SwappedChecksum | mcast-query.c:255-272 | the checksum of a byte-swapped buffer is the byte-swapped checksum |
| InternetChecksum.HostOrderStamp | mcast-query.c:255-272 | a host-order sum stored low byte first writes the same bytes as the big-endian stamp |
| GeneralQuery.UnstampedHeader | mcast-query.c:283-288 | the filled struct has no sources, group 0.0.0.0 and a zero checksum field |
| GeneralQuery.GeneralQueryBytes | mcast-query.c:283-289 | the General Query is 12 bytes of type 0x11, its checksum recomputes to 0, and it decodes to mrc 100, group 0.0.0.0, flags 2, qqic 125 and no sources |
| GeneralQuery.GeneralQueryValue | mcast-query.c:283-289 | the stamped checksum is 0xec1e |
| GeneralQuery.StampChecksum | mcast-query.c:289 | the buffer afterwards is its old contents stamped with their checksum at the field |
| GeneralQuery.BuildGeneralQuery | mcast-query.c:283-295 | filling a 12-byte buffer field by field and stamping it produces exactly the General Query, addressed to 224.0.0.1 |
| GeneralQuery.GeneralQueryAsWritten | mcast-query.c:289 | the C's packet is 12 bytes, and it is the General Query when the field happened to hold 0 |
| GeneralQuery.QueryBytesWith | mcast-query.c:283-288 | the query bytes with a given checksum field carry it at bytes 2-3 |
| GeneralQuery.QueryBytesChecksum | mcast-query.c:289 | the checksum of the query bytes is the complement of 0x13e1 plus the field's value |
| GeneralQuery.UnstampedBytes | mcast-query.c:283-288 | the zero-checksum struct is the bytes 11 64 00 00 00 00 00 00 02 7d 00 00 |
| GeneralQuery.AsWrittenStamp | mcast-query.c:289 | the C stamps the checksum of the bytes that still carry the old field value |
| GeneralQuery.UninitialisedChecksumField | mcast-query.c:289 | the C's packet has checksum equal to the old field value (0 for 0xffff), so it checks as 0 exactly when the field held 0 or 0xffff |
| Dispatch.HeaderLength | mcast-query.c:129 | the IP header length is a multiple of 4 and at most 60 |
| Dispatch.Classify | mcast-query.c:137-161 | an empty payload is an underrun; type 0x11 is a v3 query exactly when at least 12 bytes are present and the query decodes, and a legacy query with the group from bytes 4-7 exactly when 8 to 11 bytes are present; 0x12 and 0x16 are legacy reports with version, code from byte 1 and group exactly when 8 bytes are present; 0x22 is a v3 report exactly when the report decodes; any other type is `UnknownType` and only such a type is |
| Dispatch.Parse | mcast-query.c:125-162 | a datagram shorter than 20 bytes is `ShortPacket`; otherwise it is `HeaderLengthExceedsPacket` exactly when 4·IHL exceeds its length; a success had room for 8 payload bytes |
| Dispatch.ParsePayload | mcast-query.c:128-138 | behind any IP header whose IHL gives its own length, including IHL 1 to 4, a datagram of at least 20 bytes parses exactly as its payload classifies |
| Dispatch.ParseMessage | mcast-query.c:118-162 | moving the data pointer and length past the IP header and switching on the type returns exactly `Parse` |
| Dispatch.LegacyBytes | mcast-query.c:145-156 | the 8 bytes of `struct igmp` carry the type at 0, code at 1, checksum at 2-3 and group at 4-7 |
| Dispatch.ParseV3Query | mcast-query.c:139-143 | a datagram carrying an encoded v3 query parses back to that query |
| Dispatch.ParseV3Report | mcast-query.c:158-160 | a datagram carrying an encoded v3 report parses back to its records in order |
| Dispatch.ParseLegacyReport | mcast-query.c:148-157 | a v1 or v2 report parses back to its version, code and group |
| Dispatch.ParseLegacyQuery | mcast-query.c:139-147 | an 8-byte query is told from a v3 query by its length and parses to its group |
| Dispatch.PayloadLengthAsWritten | mcast-query.c:130 | the C's payload length is below 2^64, and it is the true length when the header fits |
| Dispatch.LongHeaderExample | mcast-query.c:129-130 | the example datagram is 20 bytes and claims IHL 15 |
| Dispatch.HeaderLengthWraps | mcast-query.c:129-130 | on the example, the C's payload length wraps to 2^64-40 and the header ends 40 bytes past the datagram, while `Parse` rejects it |

## Left out

- Printing: all `printf` and `inet_ntop` output, including the source addresses printed from `&data` at mcast-query.c:181. The decoders return values instead.
- Program plumbing: `main`, the socket, `poll` and `recv` loop, `ip_add_membership`, and the `sendmsg` transmission (mcast-query.c:291-303). These are operating-system I/O. `BuildGeneralQuery` returns the destination and the bytes it would hand to `sendmsg`.
- mcast-join.c is not part of this model. It consists of `setsockopt` wrappers, a blocking `poll`, and the getopt argument parsing of its `main`.
- PayloadLengthAsWritten: a 64-bit `size_t` is assumed, so the wrap is modulo 2^64; on a 32-bit target it would be modulo 2^32.
- IP header fields other than IHL. The source and destination addresses are read only for display. An IHL below 5 is accepted, as in the C; `ParsePayload` covers such headers.
- The exponential MRC and QQIC encodings (RFC 3376 sections 4.1.1 and 4.1.7). The code keeps the raw bytes, and so does the model.
- Inbound checksum verification. The code never checks received checksums.
- The 32-bit `sum` of `in_cksum`. The model sums in unbounded integers. `SumFitsInUint32` shows this agrees with the C for the 1516-byte receive buffer.
- Native-endian pointer casts in `in_cksum`. For even-length buffers these are covered by `SwappedChecksum` and `HostOrderStamp` rather than modelled byte by byte.
- The odd trailing byte of `in_cksum` on a big-endian host. The C adds `*(uint8_t *)wordp` unshifted (mcast-query.c:260). On a little-endian host that is the zero-padded host-order word; on a big-endian host it is the low byte of the word, where the model always adds it as the high byte. The program only checksums the 12-byte query, so no odd length arises.
- Memory safety beyond the buffer. The C reads past the end of short buffers. The model rejects those inputs, so it says nothing about what the C would read there.
- Aliasing of the receive buffer. Received bytes are an immutable `seq`, because the C only reads them. The General Query is built in its own 12-byte `array`.
- DecodeReport: its own contract gives the record count and the error kinds. `DecodedChain` and `DecodeIffChain` show a successful decode is the chain of records the record step finds one after another, and `RecordLayout` states the fields of each of those. The round trips are `ReportRoundTrip` and `RecordsRoundTrip`.
- DecodeRecordsAsWritten: the record count and the error kinds are stated, the fields of each record only through `RecordAtAsWritten`. It exists to exhibit the auxiliary-data finding on a concrete report.

## Findings

| source | as written | input that shows it | evidently intended | confidence | as-written member | corrected member |
|---|---|---|---|---|---|---|
| mcast-query.c:235-248 | `gr_auxlen` is never read, so after a record's sources the cursor stays on its auxiliary data, and the next record header is read from it | a report of two records, the first of type 1 for 224.0.0.5 with auxlen 1 and auxiliary word 04 00 00 00, the second of type 2 for 224.0.0.6 (`AuxExample`) | skip 4·auxlen bytes after the sources, with a bounds check (RFC 3376 section 4.2.6) | not executed | ReportDecode.AuxDataMisread | ReportDecode.AuxDataSkipped |
| mcast-query.c:289 | `in_cksum` is applied to the struct while `iq_cksum` is still uninitialised, so the sum includes whatever the stack held there | any old field value other than 0 and 0xffff, e.g. 1, gives a packet whose checksum recomputes to 1, not 0 | zero the checksum field before summing (RFC 3376 section 4.1.2) | not executed | GeneralQuery.UninitialisedChecksumField | GeneralQuery.GeneralQueryBytes |
| mcast-query.c:129-130 | `data_len -= ip->ip_hl << 2` is done without checking the header length against `data_len`, so the `size_t` wraps around | a 20-byte datagram whose first byte is 0x4f (IHL 15, a 60-byte header) (`LongHeaderExample`) | reject a datagram whose header length exceeds its length | not executed | Dispatch.HeaderLengthWraps | Dispatch.Parse |
