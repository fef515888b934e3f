/**
 Matching received test packets with expected ones: bytes may be masked out, a match
 takes one packet and one expectation off their lists, and what stays has no match.

 The lists' own removal takes off the first element that is equal to the one given. Which
 packets are equal is decided elsewhere; here equality is sameness of a key.
 */
module PacketMatch {
  import opened Sequences
  import opened Words

  datatype Pkt = Pkt(key: nat, bytes: seq<Byte>, padding: Option<seq<Byte>>)
  datatype Exp = Exp(key: nat, bytes: seq<Byte>, mask: Option<seq<Byte>>)

  const MIN_FRAME := 60

  // ----- comparing

  /** Bits set in the mask are cleared. */
  function MaskByte(x: Byte, m: Byte): (r: Byte) {
    And(x, 0xFF - m)
  }

  function Masked(s: seq<Byte>, mask: seq<Byte>): (r: seq<Byte>)
    ensures |r| == |s|
    ensures forall i :: 0 <= i < |s| ==> r[i] == if i < |mask| then MaskByte(s[i], mask[i]) else s[i]
  {
    seq(|s|, i requires 0 <= i < |s| => if i < |mask| then MaskByte(s[i], mask[i]) else s[i])
  }

  predicate SameBytes(a: seq<Byte>, b: seq<Byte>, mask: Option<seq<Byte>>) {
    match mask
    case None => a == b
    case Some(m) => Masked(a, m) == Masked(b, m)
  }

  predicate BitSet(x: nat, k: nat) {
    if k == 0 then x % 2 == 1 else BitSet(x / 2, k - 1)
  }

  lemma {:induction false} BitStep(x: nat, k: nat)
    ensures BitSet(x, k + 1) == BitSet(x / 2, k)
  {
  }

  /** The largest number of w bits. */
  function AllOnes(w: nat): nat {
    if w == 0 then 0 else 2 * AllOnes(w - 1) + 1
  }

  lemma {:induction false} ByteIsAllOnes()
    ensures AllOnes(8) == 0xFF
  {
    assert AllOnes(4) == 0xF;
  }

  /** The bits of n are those the w bits of m do not have. */
  lemma {:induction false} OppositeBits(m: nat, n: nat, w: nat, k: nat)
    requires m + n == AllOnes(w) && k < w
    ensures BitSet(n, k) == !BitSet(m, k)
    decreases w
  {
    if k > 0 {
      OppositeBits(m / 2, n / 2, w - 1, k - 1);
    }
  }

  ghost predicate SameBits(x: nat, y: nat, n: nat, w: nat) {
    forall k: nat {:trigger BitSet(x, k)} :: k < w && BitSet(n, k) ==> BitSet(x, k) == BitSet(y, k)
  }

  lemma {:induction false} SameBitsHalves(x: nat, y: nat, n: nat, w: nat)
    requires w > 0
    ensures SameBits(x, y, n, w) <==>
            (n % 2 == 1 ==> x % 2 == y % 2) && SameBits(x / 2, y / 2, n / 2, w - 1)
  {
    if SameBits(x, y, n, w) {
      assert BitSet(n, 0) ==> BitSet(x, 0) == BitSet(y, 0);
      forall k: nat | k < w - 1 && BitSet(n / 2, k)
        ensures BitSet(x / 2, k) == BitSet(y / 2, k)
      {
        BitStep(n, k);
        BitStep(x, k);
        BitStep(y, k);
      }
    }
    if (n % 2 == 1 ==> x % 2 == y % 2) && SameBits(x / 2, y / 2, n / 2, w - 1) {
      forall k: nat | k < w && BitSet(n, k)
        ensures BitSet(x, k) == BitSet(y, k)
      {
        if k > 0 {
          BitStep(n, k - 1);
          BitStep(x, k - 1);
          BitStep(y, k - 1);
        }
      }
    }
  }

  /** Conjunctions with n agree exactly when the bits that n has agree. */
  lemma {:induction false} AndAgrees(x: Uint32, y: Uint32, n: Uint32, w: nat)
    requires x <= AllOnes(w) && y <= AllOnes(w) && n <= AllOnes(w)
    ensures And(x, n) == And(y, n) <==> SameBits(x, y, n, w)
    decreases w
  {
    if w > 0 {
      AndAgrees(x / 2, y / 2, n / 2, w - 1);
      AndHalves(x, n);
      AndHalves(y, n);
      SameBitsHalves(x, y, n, w);
      hide And, SameBits;
    }
  }

  lemma {:induction false} AndHalves(x: Uint32, n: Uint32)
    ensures And(x, n) / 2 == And(x / 2, n / 2)
    ensures And(x, n) % 2 == if x % 2 == 1 && n % 2 == 1 then 1 else 0
  {
  }

  lemma {:induction false} BitsDecide(x: nat, y: nat, w: nat)
    requires x <= AllOnes(w) && y <= AllOnes(w)
    ensures x == y <==> SameBits(x, y, AllOnes(w), w)
    decreases w
  {
    if w > 0 {
      HalfBound(x, w);
      HalfBound(y, w);
      hide SameBits, AllOnes;
      BitsDecide(x / 2, y / 2, w - 1);
      SameBitsHalves(x, y, AllOnes(w), w);
      HalvesDecide(x, y);
    } else {
      assert AllOnes(0) == 0;
    }
  }

  lemma {:induction false} HalfBound(x: nat, w: nat)
    requires w > 0 && x <= AllOnes(w)
    ensures x / 2 <= AllOnes(w - 1) == AllOnes(w) / 2 && AllOnes(w) % 2 == 1
  {
  }

  lemma {:induction false} HalvesDecide(x: nat, y: nat)
    ensures x == y <==> x / 2 == y / 2 && x % 2 == y % 2
  {
  }

  /** Byte strings are the same under a mask exactly when their length and every bit outside the mask are. */
  lemma {:induction false} SameOutsideMask(a: seq<Byte>, b: seq<Byte>, m: seq<Byte>)
    ensures SameBytes(a, b, Some(m)) <==>
            |a| == |b| && forall i :: 0 <= i < |a| ==> SameOutside(a[i], b[i], if i < |m| then m[i] else 0)
  {
    if |a| == |b| {
      forall i | 0 <= i < |a|
        ensures Masked(a, m)[i] == Masked(b, m)[i] <==> SameOutside(a[i], b[i], if i < |m| then m[i] else 0)
      {
        if i < |m| {
          SameByte(a[i], b[i], m[i]);
        } else {
          EqualByte(a[i], b[i]);
        }
      }
      hide MaskByte, SameOutside;
    }
  }

  lemma {:induction false} SameByte(x: Byte, y: Byte, m: Byte)
    ensures MaskByte(x, m) == MaskByte(y, m) <==> SameOutside(x, y, m)
  {
    ByteIsAllOnes();
    AndAgrees(x, y, 0xFF - m, 8);
    forall k: nat | k < 8
      ensures BitSet(0xFF - m, k) == !BitSet(m, k)
    {
      OppositeBits(m, 0xFF - m, 8, k);
    }
    OutsideIs(x, y, 0xFF - m, m);
  }

  /** The bits of x and y agree wherever m has none. */
  ghost predicate SameOutside(x: nat, y: nat, m: nat) {
    forall k: nat {:trigger BitSet(x, k)} :: k < 8 ==> BitSet(m, k) || BitSet(x, k) == BitSet(y, k)
  }

  lemma {:induction false} OutsideIs(x: Byte, y: Byte, n: Byte, m: Byte)
    requires forall k: nat {:trigger BitSet(n, k)} :: k < 8 ==> BitSet(n, k) == !BitSet(m, k)
    ensures SameBits(x, y, n, 8) <==> SameOutside(x, y, m)
  {
    hide BitSet;
    if SameOutside(x, y, m) {
      assert SameBits(x, y, n, 8);
    }
    if SameBits(x, y, n, 8) {
      forall k: nat | k < 8
        ensures BitSet(m, k) || BitSet(x, k) == BitSet(y, k)
      {
        assert BitSet(n, k) == !BitSet(m, k);
      }
      assert SameOutside(x, y, m);
    }
  }

  lemma {:induction false} EqualByte(x: Byte, y: Byte)
    ensures x == y <==> SameOutside(x, y, 0)
  {
    ByteIsAllOnes();
    BitsDecide(x, y, 8);
    forall k: nat | k < 8
      ensures BitSet(0xFF, k) == !BitSet(0, k)
    {
      OppositeBits(0, 0xFF, 8, k);
    }
    OutsideIs(x, y, 0xFF, 0);
  }

  /** A short expectation also matches a packet that was padded to the least frame length. */
  predicate Matches(e: Exp, p: Pkt) {
    || SameBytes(e.bytes, p.bytes, e.mask)
    || (|e.bytes| < MIN_FRAME && p.padding.Some? && SameBytes(e.bytes + p.padding.value, p.bytes, e.mask))
  }

  /** The same bytes, but for the bits of the mask where there is one. */
  ghost predicate SameBut(a: seq<Byte>, b: seq<Byte>, mask: Option<seq<Byte>>) {
    |a| == |b| && forall i :: 0 <= i < |a| ==>
      SameOutside(a[i], b[i], if mask.Some? && i < |mask.value| then mask.value[i] else 0)
  }

  lemma {:induction false} SameBytesMeans(a: seq<Byte>, b: seq<Byte>, mask: Option<seq<Byte>>)
    ensures SameBytes(a, b, mask) <==> SameBut(a, b, mask)
  {
    hide SameOutside;
    if mask.Some? {
      SameOutsideMask(a, b, mask.value);
    } else if |a| == |b| {
      forall i | 0 <= i < |a|
        ensures a[i] == b[i] <==> SameOutside(a[i], b[i], 0)
      {
        EqualByte(a[i], b[i]);
      }
    }
  }

  /**
   A packet matches when its bytes are those expected, but for the mask, or, where fewer
   than 60 bytes are expected, those expected and the packet's own padding behind them.
   */
  lemma {:induction false} MatchesMeans(e: Exp, p: Pkt)
    ensures Matches(e, p) <==>
            exists pad: seq<Byte> ::
              (pad == [] || (|e.bytes| < 60 && p.padding == Some(pad))) && SameBut(e.bytes + pad, p.bytes, e.mask)
  {
    SameBytesMeans(e.bytes, p.bytes, e.mask);
    hide SameBut, SameBytes;
    assert e.bytes + [] == e.bytes;
    if p.padding.Some? {
      SameBytesMeans(e.bytes + p.padding.value, p.bytes, e.mask);
    }
  }

  method ApplyMask(s: seq<Byte>, mask: seq<Byte>) returns (r: seq<Byte>)
    ensures r == Masked(s, mask)
  {
    r := s;
    var i := 0;
    while i < |s| && i < |mask|
      invariant i <= |s| == |r|
      invariant forall k :: 0 <= k < |s| ==> r[k] == if k < i && k < |mask| then MaskByte(s[k], mask[k]) else s[k]
    {
      r := r[i := MaskByte(s[i], mask[i])];
      i := i + 1;
    }
  }

  method ComparePkts(pkta: seq<Byte>, pktb: seq<Byte>, mask: Option<seq<Byte>>) returns (same: bool)
    ensures same == SameBytes(pkta, pktb, mask)
  {
    var a, b := pkta, pktb;
    if mask.Some? {
      a := ApplyMask(a, mask.value);
      b := ApplyMask(b, mask.value);
    }
    same := a == b;
  }

  // ----- resolving

  datatype Lists = Lists(pkts: seq<Pkt>, exps: seq<Exp>, matched: seq<Pkt>)

  /** Position of the first expectation that p matches, or |es|. */
  function FirstMatch(es: seq<Exp>, p: Pkt): (k: nat)
    ensures k <= |es| && (k < |es| ==> Matches(es[k], p))
    ensures forall j :: 0 <= j < k ==> !Matches(es[j], p)
  {
    if es == [] || Matches(es[0], p) then 0 else 1 + FirstMatch(es[1..], p)
  }

  function FirstPkt(ps: seq<Pkt>, key: nat): (k: nat)
    ensures k <= |ps| && (k < |ps| ==> ps[k].key == key)
    ensures forall j :: 0 <= j < k ==> ps[j].key != key
  {
    if ps == [] || ps[0].key == key then 0 else 1 + FirstPkt(ps[1..], key)
  }

  function FirstExp(es: seq<Exp>, key: nat): (k: nat)
    ensures k <= |es| && (k < |es| ==> es[k].key == key)
    ensures forall j :: 0 <= j < k ==> es[j].key != key
  {
    if es == [] || es[0].key == key then 0 else 1 + FirstExp(es[1..], key)
  }

  /** Packet i matches expectation k: the match is recorded, and the first equal ones leave their lists. */
  function Taken(s: Lists, i: nat, k: nat): (r: Lists)
    requires i < |s.pkts| && k < |s.exps|
    ensures |r.pkts| == |s.pkts| - 1 && |r.exps| == |s.exps| - 1
  {
    Lists(Without(s.pkts, FirstPkt(s.pkts, s.pkts[i].key)),
          Without(s.exps, FirstExp(s.exps, s.exps[k].key)),
          s.matched + [s.pkts[i]])
  }

  function Resolved(s: Lists, i: nat): Lists
    decreases |s.pkts| - i
  {
    if i >= |s.pkts| then s
    else
      var k := FirstMatch(s.exps, s.pkts[i]);
      if k < |s.exps| then Resolved(Taken(s, i, k), i) else Resolved(s, i + 1)
  }

  /** Equal packets match the same expectations, and equal expectations the same packets. */
  ghost predicate Alike(ps: seq<Pkt>, es: seq<Exp>) {
    && (forall p, q, e :: p in ps && q in ps && e in es && p.key == q.key ==> (Matches(e, p) <==> Matches(e, q)))
    && (forall p, d, e :: p in ps && d in es && e in es && d.key == e.key ==> (Matches(d, p) <==> Matches(e, p)))
  }

  /** No packet before position i matches an expectation that is left. */
  ghost predicate Settled(s: Lists, i: nat) {
    i <= |s.pkts| && forall j, k :: 0 <= j < i && 0 <= k < |s.exps| ==> !Matches(s.exps[k], s.pkts[j])
  }

  lemma {:induction false} AlikeParts(ps: seq<Pkt>, es: seq<Exp>, qs: seq<Pkt>, fs: seq<Exp>)
    requires Alike(ps, es) && (forall q :: q in qs ==> q in ps) && (forall f :: f in fs ==> f in es)
    ensures Alike(qs, fs)
  {
    hide Matches;
  }

  lemma {:induction false} TakesTheMatched(s: Lists, i: nat, k: nat)
    requires Alike(s.pkts, s.exps) && Settled(s, i) && i < |s.pkts|
    requires k == FirstMatch(s.exps, s.pkts[i]) < |s.exps|
    ensures FirstPkt(s.pkts, s.pkts[i].key) == i && FirstExp(s.exps, s.exps[k].key) == k
  {
    hide FirstPkt, FirstExp, FirstMatch, Matches;
    var p, e := s.pkts[i], s.exps[k];
    var j, d := FirstPkt(s.pkts, p.key), FirstExp(s.exps, e.key);
    assert s.pkts[j] in s.pkts && s.exps[d] in s.exps && p in s.pkts && e in s.exps;
    assert Matches(e, s.pkts[j]) && Matches(s.exps[d], p);
  }

  lemma {:induction false} StaysSettled(s: Lists, i: nat, k: nat, m: seq<Pkt>)
    requires Settled(s, i) && i < |s.pkts| && k < |s.exps|
    ensures Settled(Lists(Without(s.pkts, i), Without(s.exps, k), m), i)
  {
    hide Matches;
    var ps, es := Without(s.pkts, i), Without(s.exps, k);
    forall a, b | 0 <= a < i && 0 <= b < |es|
      ensures !Matches(es[b], ps[a])
    {
      assert ps[a] == s.pkts[a] && es[b] == s.exps[if b < k then b else b + 1];
    }
  }

  /** When equal ones match alike, the ones removed are the ones that matched. */
  lemma {:induction false} TakenIsExact(s: Lists, i: nat, k: nat)
    requires Alike(s.pkts, s.exps) && Settled(s, i) && i < |s.pkts|
    requires k == FirstMatch(s.exps, s.pkts[i]) < |s.exps|
    ensures Taken(s, i, k) == Lists(Without(s.pkts, i), Without(s.exps, k), s.matched + [s.pkts[i]])
    ensures Settled(Taken(s, i, k), i)
    ensures Alike(Taken(s, i, k).pkts, Taken(s, i, k).exps)
  {
    TakesTheMatched(s, i, k);
    var r := Taken(s, i, k);
    StaysSettled(s, i, k, r.matched);
    AlikeParts(s.pkts, s.exps, r.pkts, r.exps);
    hide Alike, Settled, Matches, FirstPkt, FirstExp, FirstMatch;
  }

  lemma {:induction false} WithoutCounts<T>(now: seq<T>, moved: seq<T>, xs: seq<T>, k: nat)
    requires k < |xs| && multiset(now) + multiset(moved) == multiset(Without(xs, k))
    ensures multiset(now) + multiset([xs[k]] + moved) == multiset(xs)
  {
    assert xs == xs[..k] + [xs[k]] + xs[k + 1..];
    assert multiset(xs) == multiset(xs[..k]) + multiset{xs[k]} + multiset(xs[k + 1..]);
    assert multiset(xs) == multiset(Without(xs, k)) + multiset{xs[k]};
    assert multiset([xs[k]] + moved) == multiset{xs[k]} + multiset(moved);
  }

  /** From s to r the packets ps have met the expectations es, one each, and nothing else has changed. */
  ghost predicate Moved(s: Lists, r: Lists, ps: seq<Pkt>, es: seq<Exp>) {
    && r.matched == s.matched + ps && |ps| == |es|
    && (forall n :: 0 <= n < |ps| ==> Matches(es[n], ps[n]))
    && multiset(r.pkts) + multiset(ps) == multiset(s.pkts)
    && multiset(r.exps) + multiset(es) == multiset(s.exps)
  }

  lemma {:induction false} MovedOne(s: Lists, i: nat, k: nat, r: Lists, ps: seq<Pkt>, es: seq<Exp>)
    requires i < |s.pkts| && k < |s.exps| && Matches(s.exps[k], s.pkts[i])
    requires Moved(Lists(Without(s.pkts, i), Without(s.exps, k), s.matched + [s.pkts[i]]), r, ps, es)
    ensures Moved(s, r, [s.pkts[i]] + ps, [s.exps[k]] + es)
  {
    hide Matches;
    WithoutCounts(r.pkts, ps, s.pkts, i);
    WithoutCounts(r.exps, es, s.exps, k);
    assert s.matched + [s.pkts[i]] + ps == s.matched + ([s.pkts[i]] + ps);
  }

  /**
   Resolving moves packets to the matched ones and takes as many expectations away, the
   n-th of them for the n-th packet, and loses or duplicates none; afterwards no packet
   that is left matches an expectation that is left.
   */
  lemma {:induction false} ResolvedMatches(s: Lists, i: nat) returns (ps: seq<Pkt>, es: seq<Exp>)
    requires Alike(s.pkts, s.exps) && Settled(s, i)
    ensures Moved(s, Resolved(s, i), ps, es) && Settled(Resolved(s, i), |Resolved(s, i).pkts|)
    decreases |s.pkts| - i
  {
    hide Settled, Alike, Matches, Moved;
    ps, es := [], [];
    if i >= |s.pkts| {
      NothingMoved(s, i);
    } else {
      var k := FirstMatch(s.exps, s.pkts[i]);
      if k < |s.exps| {
        TakenIsExact(s, i, k);
        ps, es := ResolvedMatches(Taken(s, i, k), i);
        MovedOne(s, i, k, Resolved(s, i), ps, es);
        ps, es := [s.pkts[i]] + ps, [s.exps[k]] + es;
      } else {
        StillSettled(s, i);
        ps, es := ResolvedMatches(s, i + 1);
      }
    }
  }

  lemma {:induction false} NothingMoved(s: Lists, i: nat)
    requires Settled(s, i) && i >= |s.pkts|
    ensures Moved(s, s, [], []) && Settled(s, |s.pkts|)
  {
  }

  lemma {:induction false} StillSettled(s: Lists, i: nat)
    requires Settled(s, i) && i < |s.pkts| && FirstMatch(s.exps, s.pkts[i]) == |s.exps|
    ensures Settled(s, i + 1)
  {
  }

  /** If equal packets do not match alike, a match can lose one packet and leave the matched one listed. */
  lemma {:induction false} UnlikeEquals(e: Exp, p: Pkt, q: Pkt)
    requires p.key == q.key && !Matches(e, p) && Matches(e, q)
    ensures Resolved(Lists([p, q], [e], []), 0) == Lists([q], [], [q])
  {
    var s := Lists([p, q], [e], []);
    assert Resolved(s, 0) == Resolved(s, 1);
    assert Resolved(s, 1) == Resolved(Taken(s, 1, 0), 1);
    assert Taken(s, 1, 0) == Lists([q], [], [q]);
  }

  /** If equal expectations do not match alike, a match can remove one that was not met and leave the one that was. */
  lemma {:induction false} UnlikeExpectations(d: Exp, e: Exp, p: Pkt)
    requires d.key == e.key && !Matches(d, p) && Matches(e, p)
    ensures Resolved(Lists([p], [d, e], []), 0) == Lists([], [e], [p])
  {
    var s := Lists([p], [d, e], []);
    assert FirstMatch([d, e], p) == 1 by {
      assert [d, e][1..] == [e] && FirstMatch([e], p) == 0;
    }
    assert Resolved(s, 0) == Resolved(Taken(s, 0, 1), 0);
    assert Taken(s, 0, 1) == Lists([], [e], [p]);
  }

  /** The lists hold only these packets and expectations. */
  predicate DrawnFrom(s: Lists, ps: seq<Pkt>, es: seq<Exp>) {
    (forall p :: p in s.pkts ==> p in ps) && (forall e :: e in s.exps ==> e in es)
  }

  /** Resolving loses nothing, duplicates nothing and removes what was met. */
  ghost predicate Fair(s: Lists) {
    exists qs: seq<Pkt>, fs: seq<Exp> :: Moved(s, Resolved(s, 0), qs, fs)
  }

  lemma {:induction false} UnfairToPackets(e: Exp, p: Pkt, q: Pkt)
    requires p.key == q.key && !Matches(e, p) && Matches(e, q)
    ensures !Fair(Lists([p, q], [e], []))
  {
    var s := Lists([p, q], [e], []);
    UnlikeEquals(e, p, q);
    forall qs: seq<Pkt>, fs: seq<Exp>
      ensures !Moved(s, Resolved(s, 0), qs, fs)
    {
      if qs == [q] {
        assert (multiset([q]) + multiset(qs))[q] == 2 && multiset([p, q])[q] == 1;
      } else {
        assert [] + qs == qs;
      }
    }
  }

  lemma {:induction false} NotBoth(d: Exp, e: Exp, f: Exp)
    requires multiset([e]) + multiset([f]) == multiset([d, e])
    ensures f == d
  {
    assert multiset([e])[f] + multiset([f])[f] == multiset([d, e])[f];
  }

  lemma {:induction false} UnfairToExpectations(d: Exp, e: Exp, p: Pkt)
    requires d.key == e.key && !Matches(d, p) && Matches(e, p)
    ensures !Fair(Lists([p], [d, e], []))
  {
    var s := Lists([p], [d, e], []);
    UnlikeExpectations(d, e, p);
    hide Resolved, Moved, Matches;
    forall qs: seq<Pkt>, fs: seq<Exp>
      ensures !Moved(s, Resolved(s, 0), qs, fs)
    {
      if Moved(s, Resolved(s, 0), qs, fs) {
        MovedOnly(s, Resolved(s, 0), p, qs, fs);
        NotBoth(d, e, fs[0]);
        assert false;
      }
    }
  }

  lemma {:induction false} MovedOnly(s: Lists, r: Lists, p: Pkt, qs: seq<Pkt>, fs: seq<Exp>)
    requires Moved(s, r, qs, fs) && s.matched == [] && r.matched == [p]
    ensures |fs| == 1 && Matches(fs[0], p) && multiset(r.exps) + multiset([fs[0]]) == multiset(s.exps)
  {
    hide Matches;
    assert [] + qs == qs;
    assert fs == [fs[0]];
  }

  /**
   Resolving is fair on all lists drawn from these packets and expectations exactly when
   equal ones of them match alike.
   */
  lemma {:induction false} AlikeExactly(ps: seq<Pkt>, es: seq<Exp>)
    ensures Alike(ps, es) <==> forall s: Lists {:trigger Fair(s)} :: DrawnFrom(s, ps, es) ==> Fair(s)
  {
    if Alike(ps, es) {
      forall s: Lists | DrawnFrom(s, ps, es)
        ensures Fair(s)
      {
        AlikeParts(ps, es, s.pkts, s.exps);
        var qs, fs := ResolvedMatches(s, 0);
      }
    } else if p, q, e :| p in ps && q in ps && e in es && p.key == q.key && !Matches(e, p) && Matches(e, q) {
      UnfairToPackets(e, p, q);
      assert DrawnFrom(Lists([p, q], [e], []), ps, es);
    } else {
      var p, d, e :| p in ps && d in es && e in es && d.key == e.key && Matches(d, p) != Matches(e, p);
      if Matches(e, p) {
        UnfairToExpectations(d, e, p);
        assert DrawnFrom(Lists([p], [d, e], []), ps, es);
      } else {
        UnfairToExpectations(e, d, p);
        assert DrawnFrom(Lists([p], [e, d], []), ps, es);
      }
    }
  }

  /** Nothing received or asked for is lost or duplicated, and each match was one. */
  ghost predicate Balanced(l: Lists, received: seq<Pkt>, asked: seq<Exp>, met: seq<Exp>) {
    && multiset(l.pkts) + multiset(l.matched) == multiset(received)
    && multiset(l.exps) + multiset(met) == multiset(asked)
    && |l.matched| == |met| && forall n :: 0 <= n < |met| ==> Matches(met[n], l.matched[n])
  }

  lemma {:induction false} BalancedAlike(l: Lists, received: seq<Pkt>, asked: seq<Exp>, met: seq<Exp>)
    requires Balanced(l, received, asked, met) && Alike(received, asked)
    ensures Alike(l.pkts, l.exps)
  {
    assert forall p :: p in l.pkts ==> p in multiset(received);
    assert forall e :: e in l.exps ==> e in multiset(asked);
    AlikeParts(received, asked, l.pkts, l.exps);
  }

  class PktExpect {
    var pkts: seq<Pkt>
    var exps: seq<Exp>
    var matched: seq<Pkt>
    var barrier: bool
    /** Everything received and asked for so far, and the expectations that were met. */
    ghost var received: seq<Pkt>
    ghost var asked: seq<Exp>
    ghost var met: seq<Exp>

    ghost function Contents(): Lists
      reads this
    {
      Lists(pkts, exps, matched)
    }

    ghost predicate Valid()
      reads this
    {
      Balanced(Contents(), received, asked, met)
    }

    constructor ()
      ensures Valid() && received == [] && asked == []
    {
      pkts, exps, matched, barrier := [], [], [], false;
      received, asked, met := [], [], [];
    }

    method AddPkt(p: Pkt)
      requires Valid()
      modifies this
      ensures Valid() && received == old(received) + [p] && asked == old(asked) && matched == old(matched)
      ensures pkts == old(pkts) + [p]
    {
      pkts := pkts + [p];
      received := received + [p];
      barrier := false;
    }

    method ExpectPkt(e: Exp)
      requires Valid()
      modifies this
      ensures Valid() && asked == old(asked) + [e] && received == old(received) && matched == old(matched)
      ensures exps == old(exps) + [e]
    {
      exps := exps + [e];
      asked := asked + [e];
      barrier := false;
    }

    /** Position of the first expectation packet i matches, or the number of expectations. */
    method FindMatch(i: nat) returns (k: nat)
      requires i < |pkts|
      ensures k == FirstMatch(exps, pkts[i])
    {
      k := 0;
      while k < |exps|
        invariant k <= |exps| && forall j :: 0 <= j < k ==> !Matches(exps[j], pkts[i])
      {
        var e, p := exps[k], pkts[i];
        var matches := ComparePkts(e.bytes, p.bytes, e.mask);
        if !matches && |e.bytes| < MIN_FRAME && p.padding.Some? {
          matches := ComparePkts(e.bytes + p.padding.value, p.bytes, e.mask);
        }
        if matches {
          return;
        }
        k := k + 1;
      }
    }

    /** Records that packet i met expectation k, and takes both off their lists. */
    method Take(i: nat, k: nat)
      requires i < |pkts| && k < |exps|
      modifies this`pkts, this`exps, this`matched
      ensures Contents() == Taken(old(Contents()), i, k)
    {
      matched := matched + [pkts[i]];
      var p, e := FirstPkt(pkts, pkts[i].key), FirstExp(exps, exps[k].key);
      pkts := pkts[..p] + pkts[p + 1..];
      exps := exps[..e] + exps[e + 1..];
    }

    /** The loop over the received packets. */
    method MatchAll()
      requires exps != []
      modifies this`pkts, this`exps, this`matched
      ensures Contents() == Resolved(old(Contents()), 0)
    {
      hide Taken, Matches;
      var i := 0;
      var numPkts := |pkts|;
      while i < numPkts
        invariant 0 <= i <= numPkts == |pkts|
        invariant Resolved(Contents(), i) == Resolved(old(Contents()), 0)
        decreases numPkts - i
      {
        var k := FindMatch(i);
        if k < |exps| {
          Take(i, k);
          numPkts := numPkts - 1;
          i := i - 1;
        }
        i := i + 1;
      }
    }

    method ResolvePkts() returns (done: bool)
      requires Valid() && Alike(received, asked)
      modifies this
      ensures Valid() && received == old(received) && asked == old(asked)
      ensures Contents() == Resolved(old(Contents()), 0)
      ensures forall p, e :: p in pkts && e in exps ==> !Matches(e, p)
      ensures done <==> exps == []
      ensures done ==> barrier
    {
      ghost var s := Contents();
      BalancedAlike(s, received, asked, met);
      ghost var ps, es := ResolvedMatches(s, 0);
      hide Resolved, Matches, Alike, Settled, Moved, Balanced, FirstMatch, FirstPkt, FirstExp;
      if |pkts| > 0 && |exps| > 0 {
        barrier := false;
        MatchAll();
      } else {
        NothingToResolve(s, 0);
      }
      Accounted(s, Contents(), ps, es, received, asked, met);
      LeftUnmatched(Contents());
      met := met + es;
      done := |exps| == 0;
      if done {
        barrier := true;
      }
    }
  }

  lemma {:induction false} NothingToResolve(s: Lists, i: nat)
    requires s.exps == [] || s.pkts == []
    ensures Resolved(s, i) == s
    decreases |s.pkts| - i
  {
    if i < |s.pkts| {
      NothingToResolve(s, i + 1);
    }
  }

  lemma {:induction false} LeftUnmatched(s: Lists)
    requires Settled(s, |s.pkts|)
    ensures forall p, e :: p in s.pkts && e in s.exps ==> !Matches(e, p)
  {
  }

  /** Counts that balanced before a move balance after it. */
  lemma {:induction false} Accounted(s: Lists, r: Lists, ps: seq<Pkt>, es: seq<Exp>,
      received: seq<Pkt>, asked: seq<Exp>, met: seq<Exp>)
    requires Moved(s, r, ps, es) && Balanced(s, received, asked, met)
    ensures Balanced(r, received, asked, met + es)
  {
    Recount(r.pkts, ps, s.pkts, s.matched, received);
    Recount(r.exps, es, s.exps, met, asked);
    hide Matches;
  }

  lemma {:induction false} Recount<T>(now: seq<T>, moved: seq<T>, before: seq<T>, there: seq<T>, all: seq<T>)
    requires multiset(now) + multiset(moved) == multiset(before)
    requires multiset(before) + multiset(there) == multiset(all)
    ensures multiset(now) + multiset(there + moved) == multiset(all)
  {
  }
}
