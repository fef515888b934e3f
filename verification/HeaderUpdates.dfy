/**
 The checksum loops and the in-place header updates, over packet bytes in memory.
 */
module HeaderUpdates {
  import opened W = Words
  import opened Checksum

  const ICMP_HEADER := 4
  const ETHERNET_HEADER := 14

  /** The word of the data in memory. */
  method ReadWord(data: array<Byte>, i: nat) returns (w: Word)
    requires 2 * i + 1 < data.Length
    ensures w == Words(data[..])[i]
  {
    assert Words(data[..])[i] == WordAt(data[..], i);
    w := data[2 * i] as int * 0x100 + data[2 * i + 1];
  }

  /** Sums the first n words, leaving out the one at `skip`. */
  method SumSkipping(data: array<Byte>, n: nat, skip: nat) returns (sum: nat)
    requires 2 * n <= data.Length
    ensures sum == Sum(if skip < n then Words(data[..])[..n][skip := 0] else Words(data[..])[..n])
  {
    hide Sum, Words;
    ghost var all := Words(data[..])[..n];
    ghost var ws := if skip < n then all[skip := 0] else all;
    var i := 0;
    sum := 0;
    SumNone(ws[..0]);
    while i < n
      invariant i <= n && sum == Sum(ws[..i])
    {
      SumSnoc(ws, i);
      if i != skip {
        var w := ReadWord(data, i);
        sum := sum + w;
      }
      i := i + 1;
    }
    assert ws[..n] == ws;
  }

  method StoreWord(data: array<Byte>, i: nat, w: Word)
    requires 2 * i + 1 < data.Length
    modifies data
    ensures data[..] == Stored(old(data[..]), i, w)
  {
    data[2 * i] := w / 0x100;
    data[2 * i + 1] := w % 0x100;
  }

  /** Folds the carries of a sum twice and complements it. */
  method FoldAndComplement(sum: nat) returns (c: Word)
    requires sum < 0xFFFF_FFFF
    ensures c == Complement(Residue(sum))
  {
    TwoFoldsAreEnough(sum);
    hide Residue;
    var s: nat := sum / 0x1_0000 + sum % 0x1_0000;
    s := s + s / 0x1_0000;
    c := 0xFFFF - s % 0x1_0000;
  }

  /** The number of 16-bit words the header length field stands for. */
  function HeaderWords(h: seq<Byte>): nat
    requires h != []
  {
    h[0] as int % 0x10 * 2
  }

  /** Clears the checksum field and returns the checksum of the header. */
  method ComputeIpChecksum(hdr: array<Byte>) returns (c: Word)
    requires hdr.Length >= HEADER && 2 * HeaderWords(hdr[..]) <= hdr.Length
    modifies hdr
    ensures hdr[..] == Stored(old(hdr[..]), CHECKSUM_WORD, 0)
    ensures HeaderWords(hdr[..]) == HeaderWords(old(hdr[..]))
    ensures c == Complement(Residue(Sum(Words(hdr[..])[..old(hdr[0]) as int % 0x10 * 2])))
  {
    StoreWord(hdr, CHECKSUM_WORD, 0);
    var n := hdr[0] as int % 0x10 * 2;
    var sum := SumSkipping(hdr, n, CHECKSUM_WORD);
    ghost var ws := Words(hdr[..])[..n];
    SumBound(ws);
    assert CHECKSUM_WORD < n ==> ws[CHECKSUM_WORD := 0] == ws;
    c := FoldAndComplement(sum);
  }

  /** Clears the checksum field of a message and returns its checksum. */
  method ComputeIcmpChecksum(icmp: array<Byte>, payloadLen: nat) returns (c: Word)
    requires ICMP_HEADER + payloadLen <= icmp.Length && ICMP_HEADER + payloadLen <= 0xFFFF
    modifies icmp
    ensures icmp[..] == Stored(old(icmp[..]), 1, 0)
    ensures c == Complement(Residue(Sum(Words(icmp[..])[..(ICMP_HEADER + payloadLen) / 2])))
  {
    StoreWord(icmp, 1, 0);
    var n := (ICMP_HEADER + payloadLen) / 2;
    var sum := SumSkipping(icmp, n, 1);
    ghost var ws := Words(icmp[..])[..n];
    SumBound(ws);
    assert ws[1 := 0] == ws;
    c := FoldAndComplement(sum);
  }

  /** Zero for data whose word sum is a non-zero multiple of 65535, one for any other. */
  method VerifyChecksum(data: array<Byte>, dataLength: nat) returns (r: int)
    requires dataLength <= data.Length && dataLength <= 0xFFFF
    ensures r == 0 <==> Accepted(data[..dataLength])
    ensures r == 0 || r == 1
  {
    var length := dataLength / 2;
    ghost var ws := Words(data[..dataLength]);
    hide Sum, Words;
    var sum2 := 0;
    var i := 0;
    SumNone(ws[..0]);
    while i < length
      invariant i <= length && sum2 == Sum(ws[..i])
    {
      SumSnoc(ws, i);
      assert ws[i] == WordAt(data[..dataLength], i);
      sum2 := sum2 + (data[2 * i] as int * 0x100 + data[2 * i + 1]);
      i := i + 1;
    }
    assert ws[..length] == ws;
    SumBound(ws);
    OneFoldDecides(sum2);
    var sum1 := (sum2 / 0x1_0000 + sum2 % 0x1_0000) % 0x1_0000;
    r := if sum1 == 0xFFFF then 0 else 1;
  }

  /** Version 4, no options, not a fragment, and an accepted checksum. */
  method IsPacketValid(hdr: array<Byte>) returns (valid: bool)
    requires hdr.Length >= HEADER
    ensures valid <==> hdr[0] == 0x45 && hdr[6] as int % 0x40 == 0 && hdr[7] == 0 && Accepted(hdr[..HEADER])
  {
    if hdr[0] / 0x10 != 4 {
      return false;
    }
    if hdr[0] as int % 0x10 != 5 {
      return false;
    }
    var frag := hdr[6] as int * 0x100 + hdr[7];
    if frag / 0x2000 % 2 == 1 || frag % 0x2000 != 0 {
      return false;
    }
    var r := VerifyChecksum(hdr, 4 * 5);
    valid := r == 0;
  }

  /** The header update of forwarding. */
  method LowerTtl(hdr: array<Byte>)
    requires PlainHeader(hdr[..])
    modifies hdr
    ensures hdr[..] == Forwarded(old(hdr[..]))
    ensures hdr[8] == (old(hdr[8]) as int + 255) % 0x100 && Accepted(hdr[..])
    ensures forall k :: 0 <= k < HEADER && k != 8 && k != 10 && k != 11 ==> hdr[k] == old(hdr[k])
  {
    ghost var h := hdr[..];
    hdr[TTL] := (hdr[TTL] as int + 255) % 0x100;
    ghost var low := hdr[..];
    assert low == h[TTL := (h[TTL] as int + 255) % 0x100];
    Restamp(hdr);
    StampedChanges(low);
    assert hdr[..][8] == low[8];
    assert forall k :: 0 <= k < HEADER && k != 8 && k != 10 && k != 11 ==> hdr[..][k] == h[k];
  }

  /** The header update when a packet is given up. */
  method RaiseTtl(hdr: array<Byte>)
    requires PlainHeader(hdr[..])
    modifies hdr
    ensures hdr[..] == Reverted(old(hdr[..]))
    ensures if old(hdr[8]) == 255 then hdr[..] == old(hdr[..]) else hdr[8] == old(hdr[8]) + 1 && Accepted(hdr[..])
    ensures forall k :: 0 <= k < HEADER && k != 8 && k != 10 && k != 11 ==> hdr[k] == old(hdr[k])
  {
    ghost var h := hdr[..];
    if hdr[TTL] < 255 {
      hdr[TTL] := hdr[TTL] + 1;
      ghost var high := hdr[..];
      assert high == h[TTL := h[TTL] + 1];
      Restamp(hdr);
      StampedChanges(high);
      assert hdr[..][8] == high[8];
      assert forall k :: 0 <= k < HEADER && k != 8 && k != 10 && k != 11 ==> hdr[..][k] == h[k];
    }
  }

  /** A new checksum is accepted, and only its own two bytes change. */
  lemma {:induction false} StampedChanges(h: seq<Byte>)
    requires |h| == HEADER
    ensures Accepted(Stamped(h, CHECKSUM_WORD))
    ensures forall k :: 0 <= k < HEADER && k != 10 && k != 11 ==> Stamped(h, CHECKSUM_WORD)[k] == h[k]
  {
    StampedAccepted(h, CHECKSUM_WORD);
    hide Accepted, Sum, Residue, Words;
  }

  method Restamp(hdr: array<Byte>)
    requires PlainHeader(hdr[..])
    modifies hdr
    ensures hdr[..] == Stamped(old(hdr[..]), CHECKSUM_WORD)
  {
    ghost var h := hdr[..];
    var checksum := ComputeIpChecksum(hdr);
    ghost var z := hdr[..];
    assert Words(z)[..HeaderWords(z)] == Words(h)[CHECKSUM_WORD := 0];
    StoreWord(hdr, CHECKSUM_WORD, checksum);
    assert Stored(z, CHECKSUM_WORD, checksum) == Stored(h, CHECKSUM_WORD, checksum);
  }

  // ----- the test library's checksum, over 32-bit words

  /** The bytes of a buffer of 32-bit words, most significant byte first. */
  function Bytes(buf: seq<Uint32>): (b: seq<Byte>)
    ensures |b| == 4 * |buf|
  {
    if buf == [] then [] else Bytes(buf[..|buf| - 1]) + Unpack(buf[|buf| - 1], false)
  }

  lemma {:induction false} Halves(w: Uint32)
    ensures WordAt(Unpack(w, false), 0) == w / 0x1_0000 && WordAt(Unpack(w, false), 1) == w % 0x1_0000
  {
    var b := Unpack(w, false);
    PackUnpack(w, false);
    assert w == WordAt(b, 0) as int * 0x1_0000 + WordAt(b, 1);
  }

  /** The length field of the datagram that starts at byte 14. */
  function DatagramLength(buf: seq<Uint32>): Word
    requires |buf| > 4
  {
    buf[4] / 0x1_0000
  }

  /** The length is that of the datagram behind the Ethernet header: its third and fourth byte. */
  lemma {:induction false} LengthBytes(buf: seq<Uint32>)
    requires |buf| > 4
    ensures DatagramLength(buf) == Bytes(buf)[ETHERNET_HEADER + 2] as int * 0x100 + Bytes(buf)[ETHERNET_HEADER + 3]
  {
    HalfIsWord(buf, 8);
  }

  /** Folds until nothing is carried. */
  method FoldAll(total: nat) returns (r: Word)
    ensures r == Residue(total)
  {
    var sum: nat := total;
    while sum / 0x1_0000 != 0
      invariant Residue(sum) == Residue(total)
      decreases sum
    {
      FoldKeepsResidue(sum);
      sum := sum % 0x1_0000 + sum / 0x1_0000;
    }
    FoldKeepsResidue(sum);
    r := sum;
  }

  /** The 16 bits at an even byte position of the buffer are a word of its bytes. */
  lemma {:induction false} HalfIsWord(buf: seq<Uint32>, k: nat)
    requires k < 2 * |buf|
    ensures WordAt(Bytes(buf), k) == if k % 2 == 0 then buf[k / 2] / 0x1_0000 else buf[k / 2] % 0x1_0000
    decreases |buf|
  {
    hide Unpack;
    var n := |buf| - 1;
    var last := Unpack(buf[n], false);
    if k < 2 * n {
      HalfIsWord(buf[..n], k);
    } else {
      Halves(buf[n]);
      assert WordAt(Bytes(buf), k) == WordAt(last, k - 2 * n);
    }
  }

  /** The 16 bits at an even byte position. */
  method ReadHalf(buf: array<Uint32>, ind: nat, ghost k: nat) returns (val: Word)
    requires ind == 2 * k && k < 2 * buf.Length
    ensures val == Words(Bytes(buf[..]))[k]
  {
    HalfIsWord(buf[..], k);
    hide Bytes, WordAt;
    assert k / 2 == ind / 4 && (k % 2 == 0 <==> ind % 4 == 0);
    var word: int := buf[ind / 4];
    if ind % 4 == 0 {
      word := word / 0x1_0000;
    }
    val := word % 0x1_0000;
  }

  /**
   The checksum of the datagram behind an Ethernet header. A datagram of odd length is
   summed with the byte behind it.
   */
  method Cksm(buf: array<Uint32>) returns (c: Word)
    requires buf.Length > 4 && ETHERNET_HEADER + DatagramLength(buf[..]) + 1 <= 4 * buf.Length
    ensures var n := (DatagramLength(buf[..]) + 1) / 2;
            c == Complement(Residue(Sum(Words(Bytes(buf[..]))[7..7 + n])))
  {
    hide Bytes, Residue, Sum;
    ghost var n: nat := (DatagramLength(buf[..]) + 1) / 2;
    ghost var ws := Words(Bytes(buf[..]))[7..7 + n];
    ghost var k: nat := 0;
    var sum: nat := 0;
    var ind: nat := 14;
    var max: nat := ind + buf[4] / 0x1_0000;
    SumNone(ws[..0]);
    while ind < max
      invariant ind == 14 + 2 * k && k <= n && sum == Sum(ws[..k])
    {
      var val := ReadHalf(buf, ind, 7 + k);
      assert ws[k] == val;
      SumSnoc(ws, k);
      sum := sum + val;
      k := k + 1;
      ind := ind + 2;
    }
    assert ws[..n] == ws;
    SumBound(ws);
    assert sum < 0x1_0000_0000;
    var folded := FoldAll(sum);
    c := 0xFFFF - folded;
  }

  lemma {:induction false} SumNone(ws: seq<Word>)
    requires ws == []
    ensures Sum(ws) == 0
  {
  }

  /** Data of odd length are summed with a zero byte behind them, section 1 of RFC 1071. */
  function Padded(d: seq<Byte>): seq<Byte> {
    if |d| % 2 == 0 then d else d + [0]
  }

  lemma {:induction false} ByteShows(s: nat, c: Byte)
    ensures Residue(s + c) == Residue(s) <==> c == 0
  {
  }

  /** The words the library sums are those of the datagram and, for an odd length, the byte behind it. */
  lemma {:induction false} SummedWords(b: seq<Byte>, len: nat)
    requires ETHERNET_HEADER + len + len % 2 <= |b|
    ensures Words(b)[7..7 + (len + 1) / 2] == Words(b[14..14 + len + len % 2])
  {
    var d := b[14..14 + len + len % 2];
    forall k: nat | k < (len + 1) / 2
      ensures Words(b)[7..7 + (len + 1) / 2][k] == Words(d)[k]
    {
      assert WordAt(b, 7 + k) == WordAt(d, k);
    }
  }

  /** Replacing the padding by another byte adds that byte to the sum. */
  lemma {:induction false} PaddingAdds(d: seq<Byte>, c: Byte)
    requires |d| % 2 == 1
    ensures Sum(Words(d + [c])) == Sum(Words(d + [0])) + c
  {
    var i := |d| / 2;
    var v, w := Words(d + [0]), Words(d + [c]);
    assert w[i] == WordAt(d + [c], i) == WordAt(d + [0], i) + c;
    forall k: nat | k < i
      ensures w[k] == v[k]
    {
      assert WordAt(d + [c], k) == WordAt(d + [0], k);
    }
    assert w == v[i := w[i]];
    SumReplace(v, i, w[i]);
  }

  lemma {:induction false} ZeroIsAccepted(d: seq<Byte>)
    ensures Complement(OnesSum(Words(d))) == 0 <==> Accepted(d)
  {
    OnesSumIsResidue(Words(d));
    ResidueFull(Sum(Words(d)));
    hide Residue, OnesSum, Sum;
  }

  lemma {:induction false} LibrarySum(b: seq<Byte>, len: nat)
    requires ETHERNET_HEADER + len + len % 2 <= |b|
    ensures Residue(Sum(Words(b)[7..7 + (len + 1) / 2])) == Residue(Sum(Words(Padded(b[14..14 + len]))))
            <==> len % 2 == 0 || b[14 + len] == 0
  {
    hide Residue, Sum, Words;
    var d := b[14..14 + len];
    SummedWords(b, len);
    if len % 2 == 1 {
      assert b[14..14 + len + 1] == d + [b[14 + len]];
      PaddingAdds(d, b[14 + len]);
      ByteShows(Sum(Words(d + [0])), b[14 + len]);
    } else {
      assert b[14..14 + len + 0] == d;
    }
  }

  /**
   The library's checksum is the router's, the complement of the end-around sum of the
   padded datagram, exactly when the length is even or the byte behind the datagram is 0;
   and that sum's complement is 0 exactly for the data the router's verifier accepts.
   */
  lemma {:induction false} ChecksumsAgree(b: seq<Byte>, len: nat)
    requires ETHERNET_HEADER + len + len % 2 <= |b|
    ensures Complement(Residue(Sum(Words(b)[7..7 + (len + 1) / 2]))) == Complement(OnesSum(Words(Padded(b[14..14 + len]))))
            <==> len % 2 == 0 || b[14 + len] == 0
    ensures Complement(OnesSum(Words(Padded(b[14..14 + len])))) == 0 <==> Accepted(Padded(b[14..14 + len]))
  {
    LibrarySum(b, len);
    ZeroIsAccepted(Padded(b[14..14 + len]));
    OnesSumIsResidue(Words(Padded(b[14..14 + len])));
    hide Residue, OnesSum, Sum, Words, Accepted, Padded;
  }
}
