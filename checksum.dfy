/**
 * The Internet checksum of RFC 1071 as `in_cksum` computes it: a sum of
 * 16-bit words, folded with end-around carry until it fits in 16 bits, then
 * complemented.
 *
 * The C adds words in host byte order and stores `~sum` without `htons`.
 * Because a ones'-complement sum is independent of byte order (RFC 1071
 * section 2(B), proved here as `SwappedChecksum`), the model reads words big-endian,
 * takes an odd trailing byte as the high byte of a zero-padded word, and
 * writes the result big-endian.
 */
module InternetChecksum {
  import opened Wire

  /** Largest packet the receive loop hands over (`uint8_t msg[1516]`). */
  const MaxPacket: nat := 1516

  /**
   * The sum of the buffer's big-endian 16-bit words, without folding, as the
   * word loop accumulates it. Each word adds at most 0xffff.
   */
  function WordSum(s: seq<byte>): (r: nat)
    ensures r <= 0xffff * ((|s| + 1) / 2)
    decreases |s|
  {
    if |s| == 0 then 0
    else if |s| == 1 then s[0] as int * 0x100
    else U16At(s, 0) + WordSum(s[2..])
  }

  /**
   * End-around carry folding, `sum = (sum >> 16) + (sum & 0xffff)` until no
   * carry remains. It ends below 2^16, keeps the value modulo 0xffff, and
   * gives zero only for zero.
   */
  function Fold(x: nat): (r: u16)
    ensures r % 0xffff == x % 0xffff
    ensures r == 0 <==> x == 0
    decreases x
  {
    if x < 0x1_0000 then x
    else
      FoldStep(x);
      Fold(x / 0x1_0000 + x % 0x1_0000)
  }

  /** One folding step is smaller, still positive, and keeps the value modulo 0xffff. */
  lemma FoldStep(x: nat)
    requires x >= 0x1_0000
    ensures 0 < x / 0x1_0000 + x % 0x1_0000 < x
    ensures (x / 0x1_0000 + x % 0x1_0000) % 0xffff == x % 0xffff
  {
    var q, r := x / 0x1_0000, x % 0x1_0000;
    assert x == (q + r) + 0xffff * q;
    ModAddMultiple(q + r, q);
  }

  lemma {:induction false} ModAddMultiple(a: nat, q: nat)
    ensures (a + 0xffff * q) % 0xffff == a % 0xffff
  {
    if q > 0 {
      ModAddMultiple(a, q - 1);
      assert a + 0xffff * q == (a + 0xffff * (q - 1)) + 0xffff;
    }
  }

  /** `in_cksum` over the whole buffer: the complement of the folded word sum. */
  function Checksum(s: seq<byte>): (r: u16)
    ensures |s| == 0 ==> r == 0xffff
  {
    0xffff - Fold(WordSum(s))
  }

  /**
   * `in_cksum` (mcast-query.c:252-273): the word loop walks an index and a
   * remaining length, the fold loop folds carries back in.
   */
  method InCksum(data: seq<byte>) returns (r: u16)
    ensures r == Checksum(data)
  {
    var sum: nat := 0;
    var i, len := 0, |data|;
    while len > 0
      invariant 0 <= i <= |data| && i + len == |data|
      invariant sum + WordSum(data[i..]) == WordSum(data)
    {
      if len == 1 {
        assert data[i..] == [data[i]];
        sum := sum + data[i] as int * 0x100;
        break;
      }
      assert WordSum(data[i..]) == U16At(data, i) + WordSum(data[i + 2..]) by {
        assert data[i..][2..] == data[i + 2..];
      }
      sum := sum + U16At(data, i);
      i, len := i + 2, len - 2;
    }
    assert sum == WordSum(data);
    ghost var total := sum;
    while sum >= 0x1_0000
      invariant Fold(sum) == Fold(total)
      invariant sum % 0xffff == total % 0xffff
      decreases sum
    {
      FoldStep(sum);
      sum := sum / 0x1_0000 + sum % 0x1_0000;
    }
    r := 0xffff - sum;
  }

  /** The C's 32-bit `sum` cannot overflow on a received packet. */
  lemma SumFitsInUint32(s: seq<byte>)
    requires |s| <= MaxPacket
    ensures WordSum(s) < 0x1_0000_0000
  {
  }

  /** An odd trailing byte counts exactly as the same byte followed by a zero pad. */
  lemma {:induction false} WordSumPadded(s: seq<byte>)
    requires |s| % 2 == 1
    ensures WordSum(s + [0]) == WordSum(s)
    decreases |s|
  {
    if |s| > 1 {
      assert (s + [0])[2..] == s[2..] + [0];
      WordSumPadded(s[2..]);
    }
  }

  lemma ChecksumPadded(s: seq<byte>)
    requires |s| % 2 == 1
    ensures Checksum(s + [0]) == Checksum(s)
  {
    WordSumPadded(s);
  }

  /** The word sum of a concatenation whose first part is word-aligned. */
  lemma {:induction false} WordSumAppend(a: seq<byte>, b: seq<byte>)
    requires |a| % 2 == 0
    ensures WordSum(a + b) == WordSum(a) + WordSum(b)
    decreases |a|
  {
    if |a| == 0 {
      assert a + b == b;
    } else {
      assert (a + b)[2..] == a[2..] + b;
      WordSumAppend(a[2..], b);
    }
  }

  /** The checksum is 0xffff exactly when every byte is zero. */
  lemma {:induction false} WordSumZero(s: seq<byte>)
    ensures WordSum(s) == 0 <==> forall i :: 0 <= i < |s| ==> s[i] == 0
    decreases |s|
  {
    if |s| >= 2 {
      WordSumZero(s[2..]);
      if WordSum(s) == 0 {
        forall i | 0 <= i < |s| ensures s[i] == 0 {
          if i >= 2 { assert s[i] == s[2..][i - 2]; }
        }
      }
      if forall i :: 0 <= i < |s| ==> s[i] == 0 {
        assert forall i :: 0 <= i < |s| - 2 ==> s[2..][i] == s[i + 2];
      }
    }
  }

  lemma ChecksumAllOnes(s: seq<byte>)
    ensures Checksum(s) == 0xffff <==> forall i :: 0 <= i < |s| ==> s[i] == 0
  {
    WordSumZero(s);
  }

  /** The word sum of a 12-byte buffer, such as a query header, spelled out word by word. */
  lemma WordSum12(s: seq<byte>)
    requires |s| == 12
    ensures WordSum(s) == U16At(s, 0) + U16At(s, 2) + U16At(s, 4) + U16At(s, 6) + U16At(s, 8) + U16At(s, 10)
  {
    var s2 := s[2..];
    var s4 := s2[2..];
    var s6 := s4[2..];
    var s8 := s6[2..];
    var s10 := s8[2..];
    assert s10[2..] == [];
    assert WordSum(s10) == U16At(s, 10);
    assert WordSum(s8) == U16At(s, 8) + WordSum(s10);
    assert WordSum(s6) == U16At(s, 6) + WordSum(s8);
    assert WordSum(s4) == U16At(s, 4) + WordSum(s6);
    assert WordSum(s2) == U16At(s, 2) + WordSum(s4);
  }

  /** `s` with the 16-bit checksum of `s` written big-endian at offset `at`. */
  function Stamp(s: seq<byte>, at: nat): (r: seq<byte>)
    requires at + 2 <= |s|
    ensures |r| == |s| && r[..at] == s[..at] && r[at + 2..] == s[at + 2..]
    ensures U16At(r, at) == Checksum(s)
  {
    s[..at] + U16Bytes(Checksum(s)) + s[at + 2..]
  }

  /** A sum below 0x1ffff needs exactly one carry folded back in, or none. */
  lemma FoldOnce(x: nat)
    requires x < 0x1_ffff
    ensures Fold(x) == if x < 0x1_0000 then x else x - 0xffff
  {
    if x >= 0x1_0000 {
      assert x / 0x1_0000 == 1 && x % 0x1_0000 == x - 0x1_0000;
      assert Fold(x) == Fold(x - 0xffff);
    }
  }

  /** A stamp is the buffer with the given checksum's two bytes in place of the field. */
  lemma StampWith(s: seq<byte>, at: nat, c: u16)
    requires at + 2 <= |s| && Checksum(s) == c
    ensures Stamp(s, at) == s[..at] + U16Bytes(c) + s[at + 2..]
  {
  }

  /**
   * The self-check of RFC 1071: if the checksum field (word-aligned) is zero
   * while the checksum is computed, the checksum of the stamped buffer is 0.
   */
  lemma StampedChecksumIsZero(s: seq<byte>, at: nat)
    requires at + 2 <= |s| && at % 2 == 0
    requires s[at] == 0 && s[at + 1] == 0
    ensures Checksum(Stamp(s, at)) == 0
  {
    var c := Checksum(s);
    var pre, post := s[..at], s[at + 2..];
    assert s == pre + ([0, 0] + post);
    assert Stamp(s, at) == pre + (U16Bytes(c) + post);
    WordSumAppend(pre, [0, 0] + post);
    WordSumAppend(pre, U16Bytes(c) + post);
    assert ([0, 0] + post)[2..] == post;
    assert (U16Bytes(c) + post)[2..] == post;
    assert WordSum(Stamp(s, at)) == WordSum(s) + c;
    FoldComplement(WordSum(s));
  }

  /**
   * Adding the complement of its fold to a sum gives a positive multiple of
   * 0xffff, which folds to 0xffff, whose complement is 0.
   */
  lemma FoldComplement(S: nat)
    ensures Fold(S + (0xffff - Fold(S))) == 0xffff
  {
    var F := Fold(S);
    var k := S / 0xffff + 1 - F / 0xffff;
    assert F / 0xffff <= 1;
    assert S + (0xffff - F) == 0xffff * k;
    ModAddMultiple(0, k);
    var X := S + (0xffff - F);
    assert X > 0;
    var G := Fold(X);
    assert G % 0xffff == 0 && 0 < G < 0x1_0000;
    assert G == 0xffff * (G / 0xffff);
  }

  /** A 16-bit word with its two bytes exchanged. */
  function Swap16(w: u16): (r: u16)
  {
    (w % 0x100) * 0x100 + w / 0x100
  }

  /** The buffer with the bytes of every word exchanged, as a little-endian host sees it. */
  function SwapPairs(s: seq<byte>): (r: seq<byte>)
    requires |s| % 2 == 0
    ensures |r| == |s|
    decreases |s|
  {
    if |s| == 0 then [] else [s[1], s[0]] + SwapPairs(s[2..])
  }

  /** Exchanging the bytes of a word multiplies it by 256 modulo 0xffff. */
  lemma SwapMod(w: u16)
    ensures Swap16(w) % 0xffff == (0x100 * w) % 0xffff
  {
    var h, l := w / 0x100, w % 0x100;
    assert 0x100 * w == Swap16(w) + 0xffff * h;
    ModAddMultiple(Swap16(w), h);
  }

  lemma {:induction false} SwappedSumMod(s: seq<byte>)
    requires |s| % 2 == 0
    ensures WordSum(SwapPairs(s)) % 0xffff == (0x100 * WordSum(s)) % 0xffff
    ensures WordSum(SwapPairs(s)) == 0 <==> WordSum(s) == 0
    decreases |s|
  {
    if |s| > 0 {
      var w := U16At(s, 0);
      var t := SwapPairs(s);
      assert t[2..] == SwapPairs(s[2..]);
      assert U16At(t, 0) == Swap16(w);
      SwappedSumMod(s[2..]);
      SwapMod(w);
      var A, B := WordSum(SwapPairs(s[2..])), WordSum(s[2..]);
      ModSum(Swap16(w), 0x100 * (w as int), A, 0x100 * B);
    }
  }

  lemma ModSum(a: nat, a': nat, b: nat, b': nat)
    requires a % 0xffff == a' % 0xffff && b % 0xffff == b' % 0xffff
    ensures (a + b) % 0xffff == (a' + b') % 0xffff
  {
    ModAddMultiple(a % 0xffff + b % 0xffff, a / 0xffff + b / 0xffff);
    ModAddMultiple(a' % 0xffff + b' % 0xffff, a' / 0xffff + b' / 0xffff);
  }

  /**
   * Byte-order independence (RFC 1071 section 2(B)): summing the words of a
   * byte-swapped buffer gives the byte-swapped checksum, so a host-order
   * `in_cksum` stored without `htons` puts the same bytes on the wire as the
   * big-endian model.
   */
  lemma SwappedChecksum(s: seq<byte>)
    requires |s| % 2 == 0
    ensures Checksum(SwapPairs(s)) == Swap16(Checksum(s))
  {
    var S, T := WordSum(s), WordSum(SwapPairs(s));
    SwappedSumMod(s);
    SwapFold(S, T);
    assert Checksum(s) == 0xffff - Fold(S);
    assert Checksum(SwapPairs(s)) == 0xffff - Fold(T);
  }

  /**
   * What `in_cksum` does on a little-endian host: it sums the swapped words
   * and stores the result in host order, low byte first. The bytes written
   * are exactly the big-endian stamp of the model.
   */
  lemma HostOrderStamp(s: seq<byte>, at: nat)
    requires |s| % 2 == 0 && at + 2 <= |s|
    ensures var c := Checksum(SwapPairs(s));
      s[..at] + [c % 0x100, c / 0x100] + s[at + 2..] == Stamp(s, at)
  {
    var C := Checksum(s);
    SwappedChecksum(s);
    SwapBytes(C);
  }

  /** Folding a sum and the sum of the swapped words give swapped results. */
  lemma SwapFold(S: nat, T: nat)
    requires T % 0xffff == (0x100 * S) % 0xffff
    requires T == 0 <==> S == 0
    ensures 0xffff - Fold(T) == Swap16(0xffff - Fold(S))
  {
    var F, G := Fold(S), Fold(T);
    SwapMod(F);
    ModMul256(F, S);
    assert G % 0xffff == Swap16(F) % 0xffff;
    SameResidue(G, Swap16(F));
    SwapComplement(F);
  }

  /** The low byte of a swapped word is the word's high byte, and the other way round. */
  lemma SwapBytes(w: u16)
    ensures Swap16(w) % 0x100 == w / 0x100 && Swap16(w) / 0x100 == w % 0x100
  {
    var h, l := w / 0x100, w % 0x100;
    assert Swap16(w) == l * 0x100 + h;
  }

  lemma SwapComplement(w: u16)
    ensures Swap16(0xffff - w) == 0xffff - Swap16(w)
  {
  }

  /** Two 16-bit values that agree modulo 0xffff and are zero together are equal. */
  lemma SameResidue(a: u16, b: u16)
    requires a % 0xffff == b % 0xffff
    requires a == 0 <==> b == 0
    ensures a == b
  {
  }

  lemma ModMul256(x: nat, y: nat)
    requires x % 0xffff == y % 0xffff
    ensures (0x100 * x) % 0xffff == (0x100 * y) % 0xffff
  {
    var d, e := x / 0xffff, y / 0xffff;
    assert 0x100 * x == 0x100 * (x % 0xffff) + 0xffff * (0x100 * d);
    assert 0x100 * y == 0x100 * (y % 0xffff) + 0xffff * (0x100 * e);
    ModAddMultiple(0x100 * (x % 0xffff), 0x100 * d);
    ModAddMultiple(0x100 * (y % 0xffff), 0x100 * e);
  }
}
