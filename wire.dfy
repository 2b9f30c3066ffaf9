/**
 * Wire-level vocabulary shared by every part of the IGMP codec: octets,
 * network-byte-order integers, address lists, and the result of a decode.
 */
module Wire {

  /** One octet of a packet (`uint8_t`). */
  type byte = x: int | 0 <= x < 0x100

  /** A 16-bit field (`uint16_t`). */
  type u16 = x: int | 0 <= x < 0x1_0000

  /** A 32-bit field; IPv4 addresses (`struct in_addr`) are held as their big-endian value. */
  type u32 = x: int | 0 <= x < 0x1_0000_0000

  datatype Option<T> = None | Some(value: T)

  /** Why a decode call gives no result. Every early `return` of the C decoders is one of these. */
  datatype Error =
    | ShortPacket                  // shorter than a minimal IP header
    | HeaderLengthExceedsPacket    // the IP header length points past the end of the packet
    | BufferUnderrun               // a fixed-size header does not fit in the bytes that remain
    | DeclaredLengthExceedsBuffer  // a count-prefixed list does not fit in the bytes that remain
    | UnknownType(code: byte)      // an IGMP type byte the dispatcher has no case for

  /** One complete decoded value, or the reason there is none; never a partial result. */
  datatype Result<T> = Success(value: T) | Failure(error: Error)

  /** `ntohs` of the two bytes at `i`. */
  function U16At(s: seq<byte>, i: nat): (r: u16)
    requires i + 2 <= |s|
  {
    s[i] as int * 0x100 + s[i + 1]
  }

  /** `ntohl` of the four bytes at `i`. */
  function U32At(s: seq<byte>, i: nat): (r: u32)
    requires i + 4 <= |s|
  {
    U16At(s, i) * 0x1_0000 + U16At(s, i + 2)
  }

  /** `htons`: the two bytes that carry `v` in network byte order. */
  function U16Bytes(v: u16): (r: seq<byte>)
    ensures |r| == 2 && U16At(r, 0) == v
  {
    [v / 0x100, v % 0x100]
  }

  /** `htonl`: the four bytes that carry `v` in network byte order. */
  function U32Bytes(v: u32): (r: seq<byte>)
    ensures |r| == 4 && U32At(r, 0) == v
  {
    U16Bytes(v / 0x1_0000) + U16Bytes(v % 0x1_0000)
  }

  /** Reading a field and writing it back gives the bytes it was read from. */
  lemma U16BytesAt(s: seq<byte>, i: nat)
    requires i + 2 <= |s|
    ensures U16Bytes(U16At(s, i)) == s[i..i + 2]
  {
  }

  lemma U32BytesAt(s: seq<byte>, i: nat)
    requires i + 4 <= |s|
    ensures U32Bytes(U32At(s, i)) == s[i..i + 4]
  {
    var hi, lo := U16At(s, i), U16At(s, i + 2);
    assert U32At(s, i) / 0x1_0000 == hi && U32At(s, i) % 0x1_0000 == lo;
    U16BytesAt(s, i);
    U16BytesAt(s, i + 2);
  }

  /** The `n` four-byte addresses stored back to back from offset `off`, in wire order. */
  function AddrsAt(s: seq<byte>, off: nat, n: nat): (r: seq<u32>)
    requires off + 4 * n <= |s|
    ensures |r| == n
    ensures forall k :: 0 <= k < n ==> r[k] == U32At(s, off + 4 * k)
    decreases n
  {
    if n == 0 then [] else [U32At(s, off)] + AddrsAt(s, off + 4, n - 1)
  }

  /** The wire form of an address list. */
  function AddrBytes(a: seq<u32>): (r: seq<byte>)
    ensures |r| == 4 * |a|
  {
    if a == [] then [] else U32Bytes(a[0]) + AddrBytes(a[1..])
  }

  /** Address `k` of an encoded list occupies bytes 4k..4k+3 of the encoding. */
  lemma {:induction false} AddrBytesAt(a: seq<u32>, k: nat)
    requires k < |a|
    ensures AddrBytes(a)[4 * k..4 * k + 4] == U32Bytes(a[k])
  {
    if k > 0 {
      AddrBytesAt(a[1..], k - 1);
      assert AddrBytes(a) == U32Bytes(a[0]) + AddrBytes(a[1..]);
      assert AddrBytes(a)[4 * k..4 * k + 4]
          == AddrBytes(a[1..])[4 * (k - 1)..4 * (k - 1) + 4];
    }
  }

  /** Decoding an encoded address list, wherever it sits in a buffer, gives the list back. */
  lemma AddrsRoundTrip(pre: seq<byte>, a: seq<u32>, post: seq<byte>)
    ensures AddrsAt(pre + AddrBytes(a) + post, |pre|, |a|) == a
  {
    var s := pre + AddrBytes(a) + post;
    assert s[|pre|..|pre| + |AddrBytes(a)|] == AddrBytes(a);
    AddrsAtOf(s, |pre|, a);
  }

  /** The bytes `e` sit in `p` from offset `off`. */
  predicate EncodedAt(p: seq<byte>, off: nat, e: seq<byte>)
  {
    off + |e| <= |p| && p[off..off + |e|] == e
  }

  /** A piece of an encoding that sits at `off` sits in the buffer at the same distance from `off`. */
  lemma SliceWithin(p: seq<byte>, off: nat, e: seq<byte>, i: nat, j: nat)
    requires EncodedAt(p, off, e) && i <= j <= |e|
    ensures EncodedAt(p, off + i, e[i..j])
  {
    forall k | 0 <= k < j - i ensures p[off + i..off + j][k] == e[i..j][k] {
      assert p[off + i + k] == p[off..off + |e|][i + k];
    }
  }

  /** An address list whose encoding sits at `off` is read back from there. */
  lemma {:induction false} AddrsAtOf(p: seq<byte>, off: nat, a: seq<u32>)
    requires EncodedAt(p, off, AddrBytes(a))
    ensures AddrsAt(p, off, |a|) == a
    decreases |a|
  {
    if a != [] {
      var e := AddrBytes(a);
      assert e == U32Bytes(a[0]) + AddrBytes(a[1..]);
      assert e[0..4] == U32Bytes(a[0]) && e[4..|e|] == AddrBytes(a[1..]);
      SliceWithin(p, off, e, 0, 4);
      SliceWithin(p, off, e, 4, |e|);
      U32AtWithin(p, off, U32Bytes(a[0]));
      AddrsAtOf(p, off + 4, a[1..]);
      assert [a[0]] + a[1..] == a;
    }
  }

  /** A 32-bit field read where its four bytes sit. */
  lemma U32AtWithin(p: seq<byte>, off: nat, b: seq<byte>)
    requires |b| == 4 && EncodedAt(p, off, b)
    ensures U32At(p, off) == U32At(b, 0)
  {
    assert p[off] == b[0] && p[off + 1] == b[1] && p[off + 2] == b[2] && p[off + 3] == b[3];
  }

  /** Reading one more address extends the list at its end. */
  lemma AddrsAtSnoc(p: seq<byte>, off: nat, n: nat)
    requires off + 4 * (n + 1) <= |p|
    ensures AddrsAt(p, off, n + 1) == AddrsAt(p, off, n) + [U32At(p, off + 4 * n)]
  {
  }

  /**
   * The source loops of mcast-query.c (lines 180-185 and 242-248): `n`
   * addresses read one at a time while a cursor of offset and remaining
   * length advances by 4 per address and never goes negative.
   */
  method ReadAddrs(p: seq<byte>, start: nat, n: nat) returns (a: seq<u32>)
    requires start + 4 * n <= |p|
    ensures a == AddrsAt(p, start, n)
  {
    a := [];
    var off: nat, rem: nat := start, |p| - start;
    var left: nat := n;
    while left > 0
      invariant left <= n
      invariant off == start + 4 * (n - left) && off + rem == |p|
      invariant 4 * left <= rem
      invariant a == AddrsAt(p, start, n - left)
    {
      AddrsAtSnoc(p, start, n - left);
      a := a + [U32At(p, off)];
      off, rem := off + 4, rem - 4;
      left := left - 1;
    }
  }

  /** Re-encoding a decoded address list gives the bytes it came from. */
  lemma {:induction false} AddrBytesOf(p: seq<byte>, off: nat, n: nat)
    requires off + 4 * n <= |p|
    ensures AddrBytes(AddrsAt(p, off, n)) == p[off..off + 4 * n]
    decreases n
  {
    if n > 0 {
      AddrBytesOf(p, off + 4, n - 1);
      U32BytesAt(p, off);
      var a := AddrsAt(p, off, n);
      assert a[1..] == AddrsAt(p, off + 4, n - 1);
      assert p[off..off + 4 * n] == p[off..off + 4] + p[off + 4..off + 4 * n];
    }
  }
}
