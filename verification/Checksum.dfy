/**
 Internet checksums: the sums the router and the test library compute over 16-bit words,
 the different ways they fold the carries, and the time-to-live byte that is lowered and
 put back under the checksum.
 */
module Checksum {
  import opened W = Words

  type Word = Uint16

  /** Word i of a byte string in network order. */
  function WordAt(b: seq<Byte>, i: nat): (w: Word)
    requires 2 * i + 1 < |b|
  {
    b[2 * i] as int * 0x100 + b[2 * i + 1]
  }

  function Words(b: seq<Byte>): (ws: seq<Word>)
    ensures |ws| == |b| / 2
    ensures forall i :: 0 <= i < |ws| ==> ws[i] == WordAt(b, i) == b[2 * i] as int * 0x100 + b[2 * i + 1]
  {
    seq(|b| / 2, i requires 0 <= i < |b| / 2 => WordAt(b, i))
  }

  function Sum(ws: seq<Word>): nat {
    if ws == [] then 0 else Sum(ws[..|ws| - 1]) + ws[|ws| - 1]
  }

  lemma {:induction false} SumSnoc(ws: seq<Word>, n: nat)
    requires n < |ws|
    ensures Sum(ws[..n + 1]) == Sum(ws[..n]) + ws[n]
  {
    assert ws[..n + 1][..n] == ws[..n];
  }

  lemma {:induction false} SumBound(ws: seq<Word>)
    ensures Sum(ws) <= 0xFFFF * |ws|
  {
    if ws != [] {
      SumBound(ws[..|ws| - 1]);
    }
  }

  /** Exchanging one word exchanges its part of the sum. */
  lemma {:induction false} SumReplace(ws: seq<Word>, i: nat, w: Word)
    requires i < |ws|
    ensures Sum(ws[i := w]) == Sum(ws) - ws[i] + w
  {
    var n := |ws| - 1;
    if i < n {
      assert ws[i := w][..n] == ws[..n][i := w];
      SumReplace(ws[..n], i, w);
    } else {
      assert ws[i := w][..n] == ws[..n];
    }
  }

  // ----- folding the carries

  /** Addition with the carry brought around, section 1 of RFC 1071. */
  function EndAround(a: Word, b: Word): Word {
    if a + b > 0xFFFF then a + b - 0xFFFF else a + b
  }

  function OnesSum(ws: seq<Word>): Word {
    if ws == [] then 0 else EndAround(OnesSum(ws[..|ws| - 1]), ws[|ws| - 1])
  }

  function Fold(sum: nat): nat {
    sum / 0x1_0000 + sum % 0x1_0000
  }

  /** The word a long sum folds to. */
  function Residue(sum: nat): Word {
    if sum == 0 then 0 else (sum - 1) % 0xFFFF + 1
  }

  function Complement(w: Word): Word {
    0xFFFF - w
  }

  lemma {:induction false} FoldKeepsResidue(sum: nat)
    ensures Residue(Fold(sum)) == Residue(sum)
    ensures sum > 0xFFFF ==> Fold(sum) < sum
    ensures sum <= 0xFFFF ==> Fold(sum) == sum == Residue(sum)
  {
    var hi := sum / 0x1_0000;
    assert sum - Fold(sum) == 0xFFFF * hi;
    if Fold(sum) > 0 {
      ResidueShift(Fold(sum), hi);
    }
  }

  lemma {:induction false} ResidueShift(a: nat, k: nat)
    requires a > 0
    ensures Residue(a + 0xFFFF * k) == Residue(a)
  {
    if k > 0 {
      ResidueShift(a, k - 1);
      ResidueStep(a + 0xFFFF * (k - 1));
    }
  }

  lemma {:induction false} ResidueStep(a: nat)
    requires a > 0
    ensures Residue(a + 0xFFFF) == Residue(a)
  {
  }

  /** Folding a long sum is the same as bringing every carry around as it occurs. */
  lemma {:induction false} OnesSumIsResidue(ws: seq<Word>)
    ensures OnesSum(ws) == Residue(Sum(ws))
  {
    if ws != [] {
      OnesSumIsResidue(ws[..|ws| - 1]);
      ResidueAdd(Sum(ws[..|ws| - 1]), ws[|ws| - 1]);
    }
  }

  lemma {:induction false} ResidueAdd(s: nat, w: Word)
    ensures Residue(s + w) == EndAround(Residue(s), w)
  {
  }

  /** The 16-bit value the router gets by folding once and adding the new carry. */
  function FoldTwice(sum: nat): Word {
    var once := Fold(sum);
    (once + once / 0x1_0000) % 0x1_0000
  }

  /** The 16-bit value the verifier gets by folding once and dropping what does not fit. */
  function FoldOnce(sum: nat): Word {
    Fold(sum) % 0x1_0000
  }

  lemma {:induction false} FoldSmall(once: nat)
    requires once <= 0x1_FFFE
    ensures (once + once / 0x1_0000) % 0x1_0000 == Fold(once) <= 0xFFFF
  {
  }

  lemma {:induction false} FoldBound(sum: nat)
    requires sum < 0xFFFF_FFFF
    ensures Fold(sum) < 0x1_FFFE
  {
  }

  /** Two folds are enough for every sum that fits 32 bits. */
  lemma {:induction false} TwoFoldsAreEnough(sum: nat)
    requires sum < 0xFFFF_FFFF
    ensures FoldTwice(sum) == Residue(sum)
  {
    FoldBound(sum);
    FoldSmall(Fold(sum));
    FoldKeepsResidue(sum);
    FoldKeepsResidue(Fold(sum));
    hide Residue, Fold;
  }

  /** One fold recognises exactly the non-zero multiples of 65535. */
  lemma {:induction false} OneFoldDecides(sum: nat)
    requires sum < 0xFFFF_FFFF
    ensures FoldOnce(sum) == 0xFFFF <==> sum > 0 && sum % 0xFFFF == 0
  {
    FoldBound(sum);
    FoldKeepsResidue(sum);
    SmallResidue(Fold(sum));
    ResidueFull(sum);
    hide Residue, Fold;
  }

  lemma {:induction false} SmallResidue(a: nat)
    requires a < 0x1_FFFE
    ensures Residue(a) == 0xFFFF <==> a == 0xFFFF
    ensures a % 0x1_0000 == 0xFFFF <==> a == 0xFFFF
  {
  }

  lemma {:induction false} ResidueFull(a: nat)
    ensures Residue(a) == 0xFFFF <==> a > 0 && a % 0xFFFF == 0
  {
  }

  // ----- verifying and stamping

  /** The word at position i, as the 16-bit store in network order writes it. */
  function Stored(b: seq<Byte>, i: nat, w: Word): (r: seq<Byte>)
    requires 2 * i + 1 < |b|
    ensures |r| == |b| && Words(r) == Words(b)[i := w]
  {
    var r := b[2 * i := w / 0x100][2 * i + 1 := w % 0x100];
    assert forall k: nat :: k < |b| / 2 && k != i ==> WordAt(r, k) == WordAt(b, k);
    r
  }

  /** Position i of b holds the complement of the sum of all the other words. */
  function Stamped(b: seq<Byte>, i: nat): (r: seq<Byte>)
    requires 2 * i + 1 < |b|
    ensures |r| == |b|
  {
    Stored(b, i, Complement(Residue(Sum(Words(b)[i := 0]))))
  }

  predicate Accepted(b: seq<Byte>) {
    Sum(Words(b)) > 0 && Sum(Words(b)) % 0xFFFF == 0
  }

  /** Whatever is stamped is accepted. */
  lemma {:induction false} StampedAccepted(b: seq<Byte>, i: nat)
    requires 2 * i + 1 < |b|
    ensures Accepted(Stamped(b, i))
  {
    var ws := Words(b);
    var s := Sum(ws[i := 0]);
    var c := Complement(Residue(s));
    assert ws[i := 0][i := c] == ws[i := c];
    SumReplace(ws[i := 0], i, c);
    StampBalances(s);
  }

  lemma {:induction false} StampBalances(s: nat)
    ensures s + Complement(Residue(s)) > 0 && (s + Complement(Residue(s))) % 0xFFFF == 0
  {
  }

  /** Restamping an accepted header gives back its checksum, except that 0xFFFF becomes 0. */
  lemma {:induction false} RestampRestores(b: seq<Byte>, i: nat)
    requires 2 * i + 1 < |b| && Accepted(b)
    requires Sum(Words(b)[i := 0]) > 0
    ensures var c := Words(b)[i];
            Words(Stamped(b, i))[i] == if c == 0xFFFF then 0 else c
  {
    SumReplace(Words(b), i, 0);
    RestampWord(Sum(Words(b)[i := 0]), Words(b)[i]);
  }

  lemma {:induction false} RestampWord(s: nat, c: Word)
    requires s > 0 && (s + c) % 0xFFFF == 0
    ensures Complement(Residue(s)) == if c == 0xFFFF then 0 else c
  {
    var k, m := (s - 1) / 0xFFFF, (s + c) / 0xFFFF;
    assert Residue(s) + c == 0xFFFF * (m - k);
  }

  /** A byte string is given by its words when its length is even. */
  lemma {:induction false} SameWords(a: seq<Byte>, b: seq<Byte>)
    requires |a| == |b| && |a| % 2 == 0 && Words(a) == Words(b)
    ensures a == b
  {
    forall k: nat | k < |a|
      ensures a[k] == b[k]
    {
      assert Words(a)[k / 2] == Words(b)[k / 2];
      assert WordAt(a, k / 2) == WordAt(b, k / 2);
      assert k == 2 * (k / 2) || k == 2 * (k / 2) + 1;
    }
  }

  // ----- the time to live

  const TTL := 8
  const CHECKSUM_WORD := 5
  const HEADER := 20

  /** A header without options: version 4, five 32-bit words. */
  predicate PlainHeader(h: seq<Byte>) {
    |h| == HEADER && h[0] == 0x45
  }

  /** Forwarding: one less to live in the 8-bit field, and a new checksum. */
  function Forwarded(h: seq<Byte>): (r: seq<Byte>)
    requires PlainHeader(h)
    ensures PlainHeader(r)
  {
    Stamped(h[TTL := (h[TTL] as int + 255) % 0x100], CHECKSUM_WORD)
  }

  /** Timing out: one more to live and a new checksum, unless the field is full. */
  function Reverted(h: seq<Byte>): (r: seq<Byte>)
    requires PlainHeader(h)
    ensures PlainHeader(r)
  {
    if h[TTL] < 255 then Stamped(h[TTL := h[TTL] + 1], CHECKSUM_WORD) else h
  }

  lemma {:induction false} PlainSum(h: seq<Byte>)
    requires PlainHeader(h)
    ensures Sum(Words(h)[CHECKSUM_WORD := 0]) > 0
  {
    SumAtLeast(Words(h)[CHECKSUM_WORD := 0], 0);
  }

  lemma {:induction false} SumAtLeast(ws: seq<Word>, i: nat)
    requires i < |ws|
    ensures Sum(ws) >= ws[i]
  {
    if i < |ws| - 1 {
      SumAtLeast(ws[..|ws| - 1], i);
    }
  }

  lemma {:induction false} StampedTwice(b: seq<Byte>, i: nat, w: Word)
    requires 2 * i + 1 < |b|
    ensures Stamped(Stored(b, i, w), i) == Stamped(b, i)
  {
    assert Words(Stored(b, i, w))[i := 0] == Words(b)[i := 0];
  }

  /** Putting back the time to live restamps the original header. */
  lemma {:induction false} RevertedIsRestamped(h: seq<Byte>)
    requires PlainHeader(h) && h[TTL] >= 2
    ensures Reverted(Forwarded(h)) == Stamped(h, CHECKSUM_WORD)
  {
    var f := Forwarded(h);
    assert f[TTL] == h[TTL] - 1;
    var c := WordAt(f, CHECKSUM_WORD);
    assert f[TTL := h[TTL]] == Stored(h, CHECKSUM_WORD, c);
    StampedTwice(h, CHECKSUM_WORD, c);
  }

  lemma {:induction false} RestampedHeader(h: seq<Byte>)
    requires PlainHeader(h) && Accepted(h)
    ensures Stamped(h, CHECKSUM_WORD) ==
            if WordAt(h, CHECKSUM_WORD) == 0xFFFF then Stored(h, CHECKSUM_WORD, 0) else h
  {
    PlainSum(h);
    RestampRestores(h, CHECKSUM_WORD);
    var r := if WordAt(h, CHECKSUM_WORD) == 0xFFFF then Stored(h, CHECKSUM_WORD, 0) else h;
    SameWords(Stamped(h, CHECKSUM_WORD), r);
  }

  /**
   A packet that was forwarded and timed out: everything but the checksum is as it was
   exactly when it had two hops or more to live, and then the checksum is too unless it
   was 0xFFFF, which comes back as 0. Either way both headers are accepted.
   */
  lemma {:induction false} TtlRoundTrip(h: seq<Byte>)
    requires PlainHeader(h) && Accepted(h) && h[TTL] != 1
    ensures Accepted(Forwarded(h)) && Accepted(Reverted(Forwarded(h)))
    ensures var r := Reverted(Forwarded(h));
            (forall k :: 0 <= k < HEADER && k != 10 && k != 11 ==> r[k] == h[k]) <==> h[TTL] >= 2
    ensures h[TTL] >= 2 ==>
            Reverted(Forwarded(h)) == if WordAt(h, CHECKSUM_WORD) == 0xFFFF then Stored(h, CHECKSUM_WORD, 0) else h
  {
    StampedAccepted(h[TTL := (h[TTL] as int + 255) % 0x100], CHECKSUM_WORD);
    if h[TTL] >= 2 {
      RevertedIsRestamped(h);
      StampedAccepted(h, CHECKSUM_WORD);
      RestampedHeader(h);
    } else {
      var r := Reverted(Forwarded(h));
      assert r[TTL] == 255;
    }
    hide Stamped, Accepted, Forwarded, Reverted;
  }
}
