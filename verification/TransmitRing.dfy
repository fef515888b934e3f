/**
 The driver's transmit ring: a fixed pool of buffers shared by four ports, a count of
 free buffers, a quota of free buffers for each port, and the ports' queues, which are
 stopped when a quota is used up.

 A packet is queued, and later taken off, by a few separate writes; the functions
 `Adding` and `Taking` say what is still to be written at each stage.
 */
module TransmitRing {
  const MAX_IFACE := 4

  type Port = i: int | 0 <= i < MAX_IFACE
  datatype Slot = Slot(skb: nat, iface: Port)

  datatype Ring = Ring(slots: seq<Slot>, wr: nat, rd: nat, free: int, port: seq<int>, stopped: seq<bool>)

  predicate Shape(r: Ring) {
    && 0 < |r.slots| && r.wr < |r.slots| && r.rd < |r.slots|
    && |r.port| == |r.stopped| == MAX_IFACE
  }

  function Quota(pool: nat): nat {
    pool / MAX_IFACE
  }

  function Initial(slots: seq<Slot>): Ring {
    Ring(slots, 0, 0, |slots|, seq(MAX_IFACE, _ => Quota(|slots|)), seq(MAX_IFACE, _ => false))
  }

  // ----- queueing a packet, one write at a time

  function PutSlot(r: Ring, x: Slot): Ring
    requires Shape(r)
  {
    r.(slots := r.slots[r.wr := x])
  }

  function MoveWr(r: Ring): Ring
    requires Shape(r)
  {
    r.(wr := (r.wr + 1) % |r.slots|)
  }

  function TakeFree(r: Ring): Ring {
    r.(free := r.free - 1)
  }

  function TakePort(r: Ring, i: Port): Ring
    requires Shape(r)
  {
    r.(port := r.port[i := r.port[i] - 1])
  }

  function StopIfFull(r: Ring, i: Port): Ring
    requires Shape(r)
  {
    if r.port[i] == 0 then r.(stopped := r.stopped[i := true]) else r
  }

  /** The ring once the writes from the given stage on are done, the slot itself being written. */
  function Adding(r: Ring, i: Port, stage: nat): (q: Ring)
    requires Shape(r)
    ensures Shape(q)
    decreases 4 - stage
  {
    match stage
    case 0 => Adding(MoveWr(r), i, 1)
    case 1 => Adding(TakeFree(r), i, 2)
    case 2 => Adding(TakePort(r, i), i, 3)
    case 3 => StopIfFull(r, i)
    case _ => r
  }

  function Enqueued(r: Ring, x: Slot): (q: Ring)
    requires Shape(r)
    ensures Shape(q)
  {
    Adding(PutSlot(r, x), x.iface, 0)
  }

  // ----- taking the packet at the head off, one write at a time

  function MoveRd(r: Ring): Ring
    requires Shape(r)
  {
    r.(rd := (r.rd + 1) % |r.slots|)
  }

  function GiveFree(r: Ring): Ring {
    r.(free := r.free + 1)
  }

  function GivePort(r: Ring, i: Port): Ring
    requires Shape(r)
  {
    r.(port := r.port[i := r.port[i] + 1])
  }

  function WakeIfFirst(r: Ring, i: Port): Ring
    requires Shape(r)
  {
    if r.port[i] == 1 then r.(stopped := r.stopped[i := false]) else r
  }

  /** Stage 3 is left to the transfer counter, which is not part of the ring. */
  function Taking(r: Ring, i: Port, stage: nat): (q: Ring)
    requires Shape(r)
    ensures Shape(q)
    decreases 5 - stage
  {
    match stage
    case 0 => Taking(MoveRd(r), i, 1)
    case 1 => Taking(GiveFree(r), i, 2)
    case 2 => Taking(GivePort(r, i), i, 3)
    case 3 => Taking(r, i, 4)
    case 4 => WakeIfFirst(r, i)
    case _ => r
  }

  function Finished(r: Ring): (q: Ring)
    requires Shape(r)
    ensures Shape(q)
  {
    Taking(r, r.slots[r.rd].iface, 0)
  }

  // ----- what the ring holds

  /** Slots are numbered without end; number i lives at i modulo the pool size. */
  function At(r: Ring, i: nat): Slot
    requires Shape(r)
  {
    r.slots[i % |r.slots|]
  }

  /**
   Of the packets accepted so far, `done` have been taken off; the ring holds the others
   in order from rd on.
   */
  ghost predicate Holds(r: Ring, accepted: seq<Slot>, done: nat) {
    && Shape(r) && done <= |accepted| <= done + |r.slots|
    && r.rd == done % |r.slots| && r.wr == |accepted| % |r.slots|
    && r.free == |r.slots| - (|accepted| - done)
    && forall i: nat :: done <= i < |accepted| ==> At(r, i) == accepted[i]
  }

  /** The occupied slots from rd on. */
  function Contents(r: Ring): (xs: seq<Slot>)
    requires Shape(r) && 0 <= r.free <= |r.slots|
  {
    seq(|r.slots| - r.free, k requires 0 <= k => At(r, r.rd + k))
  }

  /** What the counters say about each other, and where the packets are. */
  lemma {:induction false} RingRefinesQueue(r: Ring, accepted: seq<Slot>, done: nat)
    requires Holds(r, accepted, done)
    ensures 0 <= r.free <= |r.slots| && r.wr == (r.rd + |r.slots| - r.free) % |r.slots|
    ensures Contents(r) == accepted[done..]
  {
    var n := |r.slots|;
    ModShift(done, |accepted| - done, n);
    var xs := Contents(r);
    forall k: nat | k < n - r.free
      ensures xs[k] == accepted[done..][k]
    {
      ModShift(done, k, n);
      assert At(r, r.rd + k) == At(r, done + k);
    }
  }

  lemma {:induction false} ModShift(a: nat, b: nat, n: nat)
    requires n > 0
    ensures (a % n + b) % n == (a + b) % n
  {
    var q := a / n;
    assert a == n * q + a % n;
    ModAdd(a % n + b, q, n);
    assert n * q + (a % n + b) == a + b;
  }

  lemma {:induction false} ModAdd(a: nat, q: nat, n: nat)
    requires n > 0
    ensures (n * q + a) % n == a % n
  {
    if q > 0 {
      ModAdd(a, q - 1, n);
      var b := n * (q - 1) + a;
      assert n * q + a == b + n;
      ModStep(b, n);
    }
  }

  lemma {:induction false} ModStep(b: nat, n: nat)
    requires n > 0
    ensures (b + n) % n == b % n
  {
    var d, m := b / n, b % n;
    assert b + n == n * (d + 1) + m by {
      assert n * (d + 1) == n * d + n;
    }
    Remainder(b + n, d + 1, m, n);
  }

  lemma {:induction false} MulBound(n: int, q: int)
    requires n >= 0
    ensures q >= 1 ==> n * q >= n
    ensures q <= -1 ==> n * q <= -n
  {
    if q >= 1 {
      assert n * q == n * (q - 1) + n;
    } else if q <= -1 {
      assert n * q == n * (q + 1) - n;
    }
  }

  lemma {:induction false} Remainder(a: nat, d: nat, m: nat, n: nat)
    requires m < n && a == n * d + m
    ensures a % n == m
  {
    var e, k := a / n, a % n;
    assert n * (d - e) == k - m by {
      assert a == n * e + k;
      Distribute(n, d, e);
    }
    MulBound(n, d - e);
  }

  lemma {:induction false} Distribute(n: nat, d: nat, e: nat)
    ensures n * (d - e) == n * d - n * e
  {
  }

  /** Distinct packets in the ring have distinct slots. */
  lemma {:induction false} SlotsDiffer(i: nat, j: nat, n: nat)
    requires n > 0 && i < j < i + n
    ensures i % n != j % n
  {
    var p, q := i / n, j / n;
    Division(i, n);
    Division(j, n);
    Distribute(n, q, p);
    MulBound(n, q - p);
  }

  lemma {:induction false} Division(a: nat, n: nat)
    requires n > 0
    ensures a == n * (a / n) + a % n
  {
  }

  /** Queueing a packet while a buffer is free appends it to what the ring holds. */
  lemma {:induction false} EnqueueAppends(r: Ring, accepted: seq<Slot>, done: nat, x: Slot)
    requires Holds(r, accepted, done) && r.free > 0
    ensures Holds(Enqueued(r, x), accepted + [x], done)
  {
    var n := |r.slots|;
    var q := Enqueued(r, x);
    EnqueueWrites(r, x);
    ModShift(|accepted|, 1, n);
    forall i: nat | done <= i < |accepted| + 1
      ensures At(q, i) == (accepted + [x])[i]
    {
      if i < |accepted| {
        SlotsDiffer(i, |accepted|, n);
        assert At(r, i) == accepted[i];
      }
    }
  }

  lemma {:induction false} EnqueueWrites(r: Ring, x: Slot)
    requires Shape(r)
    ensures var q := Enqueued(r, x);
            && q.slots == r.slots[r.wr := x] && q.wr == (r.wr + 1) % |r.slots| && q.rd == r.rd
            && q.free == r.free - 1 && q.port == r.port[x.iface := r.port[x.iface] - 1]
            && q.stopped == if r.port[x.iface] == 1 then r.stopped[x.iface := true] else r.stopped
  {
    var a := MoveWr(PutSlot(r, x));
    var b := TakeFree(a);
    var c := TakePort(b, x.iface);
    assert Adding(PutSlot(r, x), x.iface, 0) == Adding(a, x.iface, 1);
    assert Adding(a, x.iface, 1) == Adding(b, x.iface, 2);
    assert Adding(b, x.iface, 2) == Adding(c, x.iface, 3);
  }

  /** Taking the head off removes the oldest packet and leaves the rest. */
  lemma {:induction false} FinishRemoves(r: Ring, accepted: seq<Slot>, done: nat)
    requires Holds(r, accepted, done) && done < |accepted|
    ensures r.slots[r.rd] == accepted[done]
    ensures Holds(Finished(r), accepted, done + 1)
  {
    FinishWrites(r);
    ModShift(done, 1, |r.slots|);
  }

  lemma {:induction false} FinishWrites(r: Ring)
    requires Shape(r)
    ensures var q, i := Finished(r), r.slots[r.rd].iface;
            && q.slots == r.slots && q.wr == r.wr && q.rd == (r.rd + 1) % |r.slots|
            && q.free == r.free + 1 && q.port == r.port[i := r.port[i] + 1]
            && q.stopped == if r.port[i] == 0 then r.stopped[i := false] else r.stopped
  {
    var i := r.slots[r.rd].iface;
    var a := MoveRd(r);
    var b := GiveFree(a);
    var c := GivePort(b, i);
    assert Taking(r, i, 0) == Taking(a, i, 1);
    assert Taking(a, i, 1) == Taking(b, i, 2);
    assert Taking(b, i, 2) == Taking(c, i, 3);
    assert Taking(c, i, 3) == Taking(c, i, 4);
  }

  // ----- quotas

  function CountFor(xs: seq<Slot>, i: Port): nat {
    if xs == [] then 0 else (if xs[0].iface == i then 1 else 0) + CountFor(xs[1..], i)
  }

  lemma {:induction false} CountSnoc(xs: seq<Slot>, x: Slot, i: Port)
    ensures CountFor(xs + [x], i) == CountFor(xs, i) + if x.iface == i then 1 else 0
  {
    if xs == [] {
      assert CountFor([x], i) == (if x.iface == i then 1 else 0) + CountFor([x][1..], i);
    } else {
      assert (xs + [x])[1..] == xs[1..] + [x];
      CountSnoc(xs[1..], x, i);
    }
  }

  lemma {:induction false} CountAll(xs: seq<Slot>)
    ensures CountFor(xs, 0) + CountFor(xs, 1) + CountFor(xs, 2) + CountFor(xs, 3) == |xs|
  {
    if xs != [] {
      CountAll(xs[1..]);
    }
  }

  /** Each port's free buffers and its packets in the ring make up its quota; an awake queue has a free buffer. */
  ghost predicate Balanced(r: Ring, held: seq<Slot>) {
    && Shape(r)
    && (forall i: Port {:trigger r.port[i]} :: r.port[i] >= 0 && r.port[i] + CountFor(held, i) == Quota(|r.slots|))
    && forall i: Port {:trigger r.stopped[i]} :: !r.stopped[i] ==> r.port[i] > 0
  }

  /** When every queue is kept to its quota, an awake queue always finds a free buffer. */
  lemma {:induction false} AwakeHasBuffer(r: Ring, held: seq<Slot>, i: Port)
    requires Balanced(r, held) && r.free == |r.slots| - |held| && !r.stopped[i]
    ensures r.free > 0
  {
    CountAll(held);
    assert r.port[0] >= 0 && r.port[1] >= 0 && r.port[2] >= 0 && r.port[3] >= 0;
    assert r.port[i] > 0;
  }

  lemma {:induction false} EnqueueBalanced(r: Ring, held: seq<Slot>, x: Slot)
    requires Balanced(r, held) && !r.stopped[x.iface]
    ensures Balanced(Enqueued(r, x), held + [x])
  {
    EnqueueWrites(r, x);
    var q := Enqueued(r, x);
    assert r.port[x.iface] > 0;
    forall i: Port
      ensures q.port[i] >= 0 && q.port[i] + CountFor(held + [x], i) == Quota(|q.slots|)
      ensures !q.stopped[i] ==> q.port[i] > 0
    {
      CountSnoc(held, x, i);
      assert r.port[i] >= 0;
      assert !r.stopped[i] ==> r.port[i] > 0;
    }
  }

  lemma {:induction false} FinishBalanced(r: Ring, held: seq<Slot>)
    requires Balanced(r, held) && held != [] && held[0] == r.slots[r.rd]
    ensures Balanced(Finished(r), held[1..])
  {
    FinishWrites(r);
    var q := Finished(r);
    forall i: Port
      ensures q.port[i] >= 0 && q.port[i] + CountFor(held[1..], i) == Quota(|q.slots|)
      ensures !q.stopped[i] ==> q.port[i] > 0
    {
      assert r.port[i] >= 0;
      assert !r.stopped[i] ==> r.port[i] > 0;
    }
  }

  /** The quotas start balanced exactly when the pool has a buffer for every port. */
  lemma {:induction false} InitiallyBalanced(slots: seq<Slot>)
    requires slots != []
    ensures Holds(Initial(slots), [], 0)
    ensures Balanced(Initial(slots), []) <==> |slots| >= MAX_IFACE
  {
    var r := Initial(slots);
    assert r.port[0] == Quota(|slots|) && !r.stopped[0];
  }

  // ----- releasing the card

  /** The release drain: every buffer is freed, but no quota is given back. */
  function Drained(r: Ring): (q: Ring)
    requires Shape(r)
    ensures Shape(q) && q.port == r.port && q.stopped == r.stopped && q.slots == r.slots && q.wr == r.wr
    decreases |r.slots| - r.free
  {
    if r.free < |r.slots| then Drained(GiveFree(MoveRd(r))) else r
  }

  function DrainedSkbs(r: Ring): seq<nat>
    requires Shape(r)
    decreases |r.slots| - r.free
  {
    if r.free < |r.slots| then [r.slots[r.rd].skb] + DrainedSkbs(GiveFree(MoveRd(r))) else []
  }

  function Skbs(xs: seq<Slot>): (ks: seq<nat>)
    ensures |ks| == |xs|
    ensures forall i :: 0 <= i < |xs| ==> ks[i] == xs[i].skb
  {
    seq(|xs|, i requires 0 <= i < |xs| => xs[i].skb)
  }

  /** The drain frees what the ring still holds, in order, each packet once. */
  lemma {:induction false} DrainFreesAll(r: Ring, accepted: seq<Slot>, done: nat)
    requires Holds(r, accepted, done)
    ensures DrainedSkbs(r) == Skbs(accepted[done..])
    ensures Holds(Drained(r), accepted, |accepted|)
    decreases |accepted| - done
  {
    if done < |accepted| {
      ModShift(done, 1, |r.slots|);
      DrainFreesAll(GiveFree(MoveRd(r)), accepted, done + 1);
      assert accepted[done..][1..] == accepted[done + 1..];
    }
  }

  /** Afterwards a port's quota is short by the packets it had in the ring. */
  lemma {:induction false} DrainShortens(r: Ring, held: seq<Slot>, i: Port)
    requires Balanced(r, held)
    ensures Drained(r).port[i] == Quota(|r.slots|) - CountFor(held, i)
  {
    assert r.port[i] >= 0;
  }

  /** The quotas still balance exactly when the ring was empty. */
  lemma {:induction false} DrainBreaksQuotas(r: Ring, held: seq<Slot>)
    requires Balanced(r, held)
    ensures Balanced(Drained(r), []) <==> held == []
  {
    var q := Drained(r);
    if held != [] {
      var i := held[0].iface;
      DrainShortens(r, held, i);
      assert q.port[i] + CountFor([], i) != Quota(|q.slots|);
    } else {
      assert forall i: Port {:trigger q.port[i]} :: q.port[i] == r.port[i];
    }
  }
}
