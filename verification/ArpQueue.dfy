/**
 Packets waiting for an ARP reply, as values: sending a packet or queueing it, the ICMP
 errors owed for a timed-out entry, and what is conserved when they are sent.
 */
module ArpQueue {
  import opened Sequences
  import opened Words
  import A = ArpCache

  const PROTO_ICMP: Byte := 1
  const ECHO_REPLY: Byte := 0
  const ECHO_REQUEST: Byte := 8
  const DEST_UNREACHABLE: Byte := 3

  datatype Body = Data(id: nat) | Quote(packet: Packet)
  datatype Packet = Packet(src: Uint32, dst: Uint32, proto: Byte, icmpType: Byte, ttl: Byte, body: Body)

  /** Where the routing table sends a destination: next hop, interface and that interface's address. */
  datatype Hop = Hop(nextHop: Uint32, iface: string, ifaceIp: Uint32)
  datatype Outgoing = Outgoing(packet: Packet, nextHop: Uint32, iface: string)
  datatype Frame = Frame(packet: Packet, mac: A.Mac, iface: string)
  datatype Request = Request(ip: Uint32, iface: string, at: int)

  /** sentAt records when the requests of this entry were sent; `Recorded` ties it to the requests themselves. */
  datatype Entry = Entry(iface: string, nextHop: Uint32, requests: nat, lastReqTime: int,
                         packets: seq<Packet>, sentAt: seq<int>)
  type Queue = seq<Entry>

  /** The queue together with what has been put on the wire. */
  datatype State = State(queue: Queue, wire: seq<Frame>, arpWire: seq<Request>)

  // ----- sending

  function FindHop(q: Queue, hop: Uint32): (k: nat)
    ensures k <= |q|
    ensures k < |q| ==> q[k].nextHop == hop
    ensures forall j :: 0 <= j < k ==> q[j].nextHop != hop
  {
    if q == [] || q[0].nextHop == hop then 0 else 1 + FindHop(q[1..], hop)
  }

  function Extended(e: Entry, p: Packet): Entry {
    e.(packets := e.packets + [p])
  }

  function NewEntry(o: Outgoing, now: int): Entry {
    Entry(o.iface, o.nextHop, 1, now, [o.packet], [now])
  }

  /** The packet joins the entry for its next hop; a new entry sends a request at once. */
  function Enqueue(s: State, o: Outgoing, now: int): State {
    var k := FindHop(s.queue, o.nextHop);
    if k < |s.queue| then s.(queue := s.queue[k := Extended(s.queue[k], o.packet)])
    else s.(queue := s.queue + [NewEntry(o, now)], arpWire := s.arpWire + [Request(o.nextHop, o.iface, now)])
  }

  /** A packet whose next hop is in the cache goes out; any other is queued. */
  function Send(s: State, o: Outgoing, cache: seq<A.ArpEntry>, now: int): State {
    var k := A.Find(cache, o.nextHop);
    if k < |cache| then s.(wire := s.wire + [Frame(o.packet, cache[k].mac, o.iface)])
    else Enqueue(s, o, now)
  }

  function SendAll(s: State, os: seq<Outgoing>, cache: seq<A.ArpEntry>, nows: seq<int>): State
    requires |os| == |nows|
    decreases |os|
  {
    if os == [] then s
    else
      var n := |os| - 1;
      Send(SendAll(s, os[..n], cache, nows[..n]), os[n], cache, nows[n])
  }

  lemma {:induction false} SendAllSnoc(s: State, os: seq<Outgoing>, o: Outgoing, cache: seq<A.ArpEntry>,
      nows: seq<int>, now: int)
    requires |os| == |nows|
    ensures SendAll(s, os + [o], cache, nows + [now]) == Send(SendAll(s, os, cache, nows), o, cache, now)
  {
    assert (os + [o])[..|os|] == os && (nows + [now])[..|nows|] == nows;
  }

  // ----- the errors owed for packets that time out

  /** An error is sent for anything but ICMP errors. */
  predicate Answerable(p: Packet) {
    p.proto != PROTO_ICMP || p.icmpType == ECHO_REPLY || p.icmpType == ECHO_REQUEST
  }

  /** The time to live is put back before the packet is quoted. */
  function Restored(p: Packet): Packet {
    if p.ttl < 255 then p.(ttl := p.ttl + 1) else p
  }

  /** A host-unreachable error for p, sent through hop h. */
  function Unreachable(p: Packet, h: Hop): Outgoing {
    Outgoing(Packet(h.ifaceIp, p.src, PROTO_ICMP, DEST_UNREACHABLE, 0x40, Quote(Restored(p))), h.nextHop, h.iface)
  }

  function ErrorFor(p: Packet, routes: map<Uint32, Hop>, local: set<Uint32>): (os: seq<Outgoing>)
    ensures |os| <= 1
  {
    if Answerable(p) && p.src !in local && p.src in routes then [Unreachable(p, routes[p.src])] else []
  }

  function Errors(ps: seq<Packet>, routes: map<Uint32, Hop>, local: set<Uint32>): seq<Outgoing> {
    if ps == [] then [] else ErrorFor(ps[0], routes, local) + Errors(ps[1..], routes, local)
  }

  /** An error is owed for p: it is no ICMP error, it did not come from us, and its source has a route. */
  predicate Owes(p: Packet, routes: map<Uint32, Hop>, local: set<Uint32>) {
    (p.proto != 1 || p.icmpType == 0 || p.icmpType == 8) && p.src !in local && p.src in routes
  }

  /** q is p with its time to live put back. */
  predicate Quotes(q: Packet, p: Packet) {
    && q.src == p.src && q.dst == p.dst && q.proto == p.proto && q.icmpType == p.icmpType && q.body == p.body
    && q.ttl == if p.ttl < 255 then p.ttl + 1 else p.ttl
  }

  /** o takes a host-unreachable error for p back to its source, by the way the routes give, and quotes p. */
  predicate Answers(o: Outgoing, p: Packet, routes: map<Uint32, Hop>) {
    && p.src in routes && o.nextHop == routes[p.src].nextHop && o.iface == routes[p.src].iface
    && o.packet.dst == p.src && o.packet.src == routes[p.src].ifaceIp
    && o.packet.proto == 1 && o.packet.icmpType == 3 && o.packet.ttl == 64
    && o.packet.body.Quote? && Quotes(o.packet.body.packet, p)
  }

  /** The errors are those owed for the packets: one for each packet at these positions, in order. */
  ghost predicate ErrorsOwed(os: seq<Outgoing>, ps: seq<Packet>, at: seq<nat>, routes: map<Uint32, Hop>, local: set<Uint32>) {
    && |at| == |os| && Rising(at, |ps|)
    && (forall j: nat :: j < |ps| ==> (j in at <==> Owes(ps[j], routes, local)))
    && (forall i :: 0 <= i < |os| ==> Answers(os[i], ps[at[i]], routes))
  }

  lemma {:induction false} ErrorsAreOwed(ps: seq<Packet>, routes: map<Uint32, Hop>, local: set<Uint32>) returns (at: seq<nat>)
    ensures ErrorsOwed(Errors(ps, routes, local), ps, at, routes, local)
  {
    at := [];
    if ps != [] {
      var n := |ps| - 1;
      at := ErrorsAreOwed(ps[..n], routes, local);
      ErrorsSnoc(ps, n, routes, local);
      assert ps[..n + 1] == ps;
      OwesError(ps[n], routes, local);
      if Owes(ps[n], routes, local) {
        at := at + [n];
      }
      hide Errors, ErrorFor, Owes, Answers;
    }
  }

  lemma {:induction false} OwesError(p: Packet, routes: map<Uint32, Hop>, local: set<Uint32>)
    ensures var e := ErrorFor(p, routes, local);
            if Owes(p, routes, local) then |e| == 1 && Answers(e[0], p, routes) else e == []
  {
  }

  lemma {:induction false} ErrorsJoin(ps: seq<Packet>, qs: seq<Packet>, routes: map<Uint32, Hop>, local: set<Uint32>)
    ensures Errors(ps + qs, routes, local) == Errors(ps, routes, local) + Errors(qs, routes, local)
  {
    if ps == [] {
      assert ps + qs == qs;
    } else {
      assert (ps + qs)[1..] == ps[1..] + qs;
      ErrorsJoin(ps[1..], qs, routes, local);
    }
  }

  lemma {:induction false} ErrorsSnoc(ps: seq<Packet>, j: nat, routes: map<Uint32, Hop>, local: set<Uint32>)
    requires j < |ps|
    ensures Errors(ps[..j + 1], routes, local) == Errors(ps[..j], routes, local) + ErrorFor(ps[j], routes, local)
  {
    assert ps[..j + 1] == ps[..j] + [ps[j]];
    ErrorsJoin(ps[..j], [ps[j]], routes, local);
    assert Errors([ps[j]], routes, local) == ErrorFor(ps[j], routes, local) + Errors([], routes, local);
  }

  /** An ICMP error never causes another error. */
  lemma {:induction false} ErrorsCauseNone(ps: seq<Packet>, routes: map<Uint32, Hop>, local: set<Uint32>)
    requires forall p :: p in ps ==> !Answerable(p)
    ensures Errors(ps, routes, local) == []
  {
    if ps != [] {
      ErrorsCauseNone(ps[1..], routes, local);
    }
  }

  lemma {:induction false} ErrorsAreErrors(ps: seq<Packet>, routes: map<Uint32, Hop>, local: set<Uint32>)
    ensures forall o :: o in Errors(ps, routes, local) ==> !Answerable(o.packet)
  {
    if ps != [] {
      ErrorsAreErrors(ps[1..], routes, local);
    }
  }

  /** Weight of the packets still to be processed: one that may cause an error counts twice. */
  function Weight(ps: seq<Packet>): nat {
    if ps == [] then 0 else (if Answerable(ps[0]) then 2 else 1) + Weight(ps[1..])
  }

  lemma {:induction false} WeightSnoc(ps: seq<Packet>, p: Packet)
    ensures Weight(ps + [p]) == Weight(ps) + if Answerable(p) then 2 else 1
  {
    if ps == [] {
      assert Weight([p]) == (if Answerable(p) then 2 else 1) + Weight([p][1..]);
    } else {
      assert (ps + [p])[1..] == ps[1..] + [p];
      WeightSnoc(ps[1..], p);
    }
  }

  // ----- draining an entry while the errors it causes join the queue

  /** s, but the first j packets of entry n have been taken off. */
  function Trim(s: State, n: nat, j: nat): State
    requires n < |s.queue| && j <= |s.queue[n].packets|
  {
    s.(queue := s.queue[n := s.queue[n].(packets := s.queue[n].packets[j..])])
  }

  /** Whether a queued error joins before or after packets were taken off makes no difference. */
  lemma {:induction false} TrimSend(s: State, n: nat, j: nat, o: Outgoing, cache: seq<A.ArpEntry>, now: int)
    requires n < |s.queue| && j <= |s.queue[n].packets|
    ensures var t := Send(s, o, cache, now);
            && n < |t.queue| && j <= |t.queue[n].packets|
            && Send(Trim(s, n, j), o, cache, now) == Trim(t, n, j)
  {
    var k := FindHop(s.queue, o.nextHop);
    SameHops(s.queue, Trim(s, n, j).queue, o.nextHop);
    if k == n {
      var ps := s.queue[n].packets;
      assert (ps + [o.packet])[j..] == ps[j..] + [o.packet];
    }
  }

  lemma {:induction false} SameHops(q: Queue, r: Queue, hop: Uint32)
    requires |q| == |r| && forall i :: 0 <= i < |q| ==> q[i].nextHop == r[i].nextHop
    ensures FindHop(q, hop) == FindHop(r, hop)
  {
    var a, b := FindHop(q, hop), FindHop(r, hop);
    assert a < |q| ==> r[a].nextHop == hop;
    assert b < |r| ==> q[b].nextHop == hop;
  }

  /** e may have gained packets at the end, and nothing else changed. */
  predicate Grown(e: Entry, f: Entry) {
    e.packets <= f.packets && f == e.(packets := f.packets)
  }

  /** The entries of q are still there, in place, possibly grown; what follows is new. */
  predicate QueueGrown(q: Queue, r: Queue, since: int) {
    && |q| <= |r|
    && (forall i :: 0 <= i < |q| ==> Grown(q[i], r[i]))
    && (forall i :: |q| <= i < |r| ==> IsNew(r[i], since))
  }

  /** An entry created at or after the given time, with its first request sent. */
  predicate IsNew(e: Entry, since: int) {
    e.requests == 1 && |e.sentAt| == 1 && e.sentAt[0] == e.lastReqTime && e.lastReqTime >= since
  }

  lemma {:induction false} SendGrows(s: State, o: Outgoing, cache: seq<A.ArpEntry>, now: int, since: int)
    requires now >= since
    ensures QueueGrown(s.queue, Send(s, o, cache, now).queue, since)
  {
  }

  lemma {:induction false} GrownTransitive(q: Queue, r: Queue, t: Queue, since: int)
    requires QueueGrown(q, r, since) && QueueGrown(r, t, since)
    ensures QueueGrown(q, t, since)
  {
    forall i | |q| <= i < |t|
      ensures IsNew(t[i], since)
    {
      if i < |r| {
        assert Grown(r[i], t[i]) && IsNew(r[i], since);
      }
    }
    forall i | 0 <= i < |q|
      ensures Grown(q[i], t[i])
    {
      assert Grown(q[i], r[i]) && Grown(r[i], t[i]);
    }
  }

  lemma {:induction false} SendAllGrows(s: State, os: seq<Outgoing>, cache: seq<A.ArpEntry>, nows: seq<int>, since: int)
    requires |os| == |nows| && forall i :: 0 <= i < |nows| ==> nows[i] >= since
    ensures QueueGrown(s.queue, SendAll(s, os, cache, nows).queue, since)
    decreases |os|
  {
    if os != [] {
      var n := |os| - 1;
      var t := SendAll(s, os[..n], cache, nows[..n]);
      SendAllGrows(s, os[..n], cache, nows[..n], since);
      SendGrows(t, os[n], cache, nows[n], since);
      GrownTransitive(s.queue, t.queue, Send(t, os[n], cache, nows[n]).queue, since);
    }
  }

  /** What entry n gains while `os` is sent are packets of `os`. */
  lemma {:induction false} GainedFrom(s: State, os: seq<Outgoing>, cache: seq<A.ArpEntry>, nows: seq<int>, n: nat)
    requires |os| == |nows| && n < |s.queue|
    requires forall o :: o in os ==> !Answerable(o.packet)
    ensures var q := SendAll(s, os, cache, nows).queue;
            && n < |q| && s.queue[n].packets <= q[n].packets
            && forall i :: |s.queue[n].packets| <= i < |q[n].packets| ==> !Answerable(q[n].packets[i])
    decreases |os|
  {
    if os != [] {
      var m := |os| - 1;
      GainedFrom(s, os[..m], cache, nows[..m], n);
      var t := SendAll(s, os[..m], cache, nows[..m]);
      SendGrows(t, os[m], cache, nows[m], nows[m]);
      assert Grown(t.queue[n], Send(t, os[m], cache, nows[m]).queue[n]);
    }
  }

  // ----- one entry per next hop

  predicate UniqueHops(q: Queue) {
    forall i, j :: 0 <= i < j < |q| ==> q[i].nextHop != q[j].nextHop
  }

  lemma {:induction false} SendUnique(s: State, o: Outgoing, cache: seq<A.ArpEntry>, now: int)
    requires UniqueHops(s.queue)
    ensures UniqueHops(Send(s, o, cache, now).queue)
  {
  }

  lemma {:induction false} SendAllUnique(s: State, os: seq<Outgoing>, cache: seq<A.ArpEntry>, nows: seq<int>)
    requires |os| == |nows| && UniqueHops(s.queue)
    ensures UniqueHops(SendAll(s, os, cache, nows).queue)
    decreases |os|
  {
    if os != [] {
      var n := |os| - 1;
      SendAllUnique(s, os[..n], cache, nows[..n]);
      SendUnique(SendAll(s, os[..n], cache, nows[..n]), os[n], cache, nows[n]);
    }
  }

  // ----- the requests on the wire

  /** When requests for hop were sent. */
  function TimesFor(rs: seq<Request>, hop: Uint32): seq<int> {
    if rs == [] then []
    else
      var n := |rs| - 1;
      TimesFor(rs[..n], hop) + (if rs[n].ip == hop then [rs[n].at] else [])
  }

  lemma {:induction false} TimesSnoc(rs: seq<Request>, r: Request, hop: Uint32)
    ensures TimesFor(rs + [r], hop) == TimesFor(rs, hop) + (if r.ip == hop then [r.at] else [])
  {
    assert (rs + [r])[..|rs|] == rs;
  }

  predicate EndsWith(s: seq<int>, t: seq<int>) {
    |t| <= |s| && s[|s| - |t|..] == t
  }

  /** The requests an entry counts are the last ones sent for its next hop. */
  ghost predicate Recorded(s: State) {
    forall i :: 0 <= i < |s.queue| ==> EndsWith(TimesFor(s.arpWire, s.queue[i].nextHop), s.queue[i].sentAt)
  }

  /** Nothing that was sent is taken back. */
  predicate Sent(s: State, t: State) {
    s.wire <= t.wire && s.arpWire <= t.arpWire
  }

  lemma {:induction false} SendRecorded(s: State, o: Outgoing, cache: seq<A.ArpEntry>, now: int)
    requires Recorded(s)
    ensures Recorded(Send(s, o, cache, now)) && Sent(s, Send(s, o, cache, now))
  {
    var t := Send(s, o, cache, now);
    if A.Find(cache, o.nextHop) == |cache| && FindHop(s.queue, o.nextHop) == |s.queue| {
      forall i | 0 <= i < |t.queue|
        ensures EndsWith(TimesFor(t.arpWire, t.queue[i].nextHop), t.queue[i].sentAt)
      {
        TimesSnoc(s.arpWire, Request(o.nextHop, o.iface, now), t.queue[i].nextHop);
      }
    }
  }

  lemma {:induction false} SendAllRecorded(s: State, os: seq<Outgoing>, cache: seq<A.ArpEntry>, nows: seq<int>)
    requires |os| == |nows| && Recorded(s)
    ensures Recorded(SendAll(s, os, cache, nows)) && Sent(s, SendAll(s, os, cache, nows))
    decreases |os|
  {
    if os != [] {
      hide Recorded, Send;
      var n := |os| - 1;
      SendAllRecorded(s, os[..n], cache, nows[..n]);
      SendRecorded(SendAll(s, os[..n], cache, nows[..n]), os[n], cache, nows[n]);
    }
  }

  // ----- conservation

  function Queued(q: Queue): multiset<Packet> {
    if q == [] then multiset{} else multiset(q[0].packets) + Queued(q[1..])
  }

  function PacketsOf(os: seq<Outgoing>): (ps: seq<Packet>)
    ensures |ps| == |os|
    ensures forall i :: 0 <= i < |os| ==> ps[i] == os[i].packet
  {
    seq(|os|, i requires 0 <= i < |os| => os[i].packet)
  }

  function OnWire(fs: seq<Frame>): (ps: seq<Packet>)
    ensures |ps| == |fs|
    ensures forall i :: 0 <= i < |fs| ==> ps[i] == fs[i].packet
  {
    seq(|fs|, i requires 0 <= i < |fs| => fs[i].packet)
  }

  /** Everything that is queued or has been transmitted. */
  function Held(s: State): multiset<Packet> {
    Queued(s.queue) + multiset(OnWire(s.wire))
  }

  lemma {:induction false} QueuedJoin(q: Queue, r: Queue)
    ensures Queued(q + r) == Queued(q) + Queued(r)
  {
    if q == [] {
      assert q + r == r;
    } else {
      assert (q + r)[1..] == q[1..] + r;
      QueuedJoin(q[1..], r);
    }
  }

  /** Replacing entry n exchanges its packets for those of the replacement. */
  lemma {:induction false} QueuedReplace(q: Queue, n: nat, e: Entry)
    requires n < |q|
    ensures Queued(q[n := e]) + multiset(q[n].packets) == Queued(q) + multiset(e.packets)
  {
    assert q == q[..n] + [q[n]] + q[n + 1..];
    assert q[n := e] == q[..n] + [e] + q[n + 1..];
    QueuedJoin(q[..n] + [q[n]], q[n + 1..]);
    QueuedJoin(q[..n] + [e], q[n + 1..]);
    QueuedJoin(q[..n], [q[n]]);
    QueuedJoin(q[..n], [e]);
    assert [q[n]][1..] == [] && [e][1..] == [];
  }

  lemma {:induction false} QueuedRemove(q: Queue, n: nat)
    requires n < |q|
    ensures Queued(q[..n] + q[n + 1..]) + multiset(q[n].packets) == Queued(q)
  {
    assert q == q[..n] + [q[n]] + q[n + 1..];
    QueuedJoin(q[..n] + [q[n]], q[n + 1..]);
    QueuedJoin(q[..n], [q[n]]);
    QueuedJoin(q[..n], q[n + 1..]);
    assert [q[n]][1..] == [];
  }

  lemma {:induction false} QueuedWithout(q: Queue, n: nat)
    requires n < |q|
    ensures Queued(Without(q, n)) + multiset(q[n].packets) == Queued(q)
  {
    QueuedRemove(q, n);
  }

  lemma {:induction false} Cancel(a: multiset<Packet>, b: multiset<Packet>, c: multiset<Packet>, d: multiset<Packet>)
    requires a + b == c + (b + d)
    ensures a == c + d
  {
    forall x
      ensures a[x] == (c + d)[x]
    {
      assert (a + b)[x] == (c + (b + d))[x];
    }
  }

  /** A packet handed over is afterwards held exactly once more. */
  lemma {:induction false} SendConserves(s: State, o: Outgoing, cache: seq<A.ArpEntry>, now: int)
    ensures Held(Send(s, o, cache, now)) == Held(s) + multiset{o.packet}
  {
    var t := Send(s, o, cache, now);
    if A.Find(cache, o.nextHop) < |cache| {
      assert OnWire(t.wire) == OnWire(s.wire) + [o.packet];
    } else {
      var k := FindHop(s.queue, o.nextHop);
      if k < |s.queue| {
        QueuedReplace(s.queue, k, Extended(s.queue[k], o.packet));
        Cancel(Queued(t.queue), multiset(s.queue[k].packets), Queued(s.queue), multiset{o.packet});
      } else {
        QueuedJoin(s.queue, [NewEntry(o, now)]);
        assert Queued([NewEntry(o, now)]) == multiset([o.packet]) + Queued([NewEntry(o, now)][1..]);
      }
    }
  }

  lemma {:induction false} SendAllConserves(s: State, os: seq<Outgoing>, cache: seq<A.ArpEntry>, nows: seq<int>)
    requires |os| == |nows|
    ensures Held(SendAll(s, os, cache, nows)) == Held(s) + multiset(PacketsOf(os))
    decreases |os|
  {
    hide Held, Send;
    if os != [] {
      var n := |os| - 1;
      SendAllConserves(s, os[..n], cache, nows[..n]);
      SendConserves(SendAll(s, os[..n], cache, nows[..n]), os[n], cache, nows[n]);
      assert PacketsOf(os) == PacketsOf(os[..n]) + [os[n].packet];
    }
  }

  /**
   All packets an expired entry gives up, those it gained on the way included, owe the
   errors its packets owed at the start: draining sends exactly these.
   */
  lemma {:induction false} DrainOwes(s: State, n: nat, os: seq<Outgoing>, cache: seq<A.ArpEntry>, nows: seq<int>,
      routes: map<Uint32, Hop>, local: set<Uint32>)
    requires |os| == |nows| && n < |s.queue|
    requires var q := SendAll(s, os, cache, nows).queue;
             n < |q| && os == Errors(q[n].packets, routes, local)
    ensures os == Errors(s.queue[n].packets, routes, local)
  {
    var q := SendAll(s, os, cache, nows).queue;
    ErrorsAreErrors(q[n].packets, routes, local);
    GainedFrom(s, os, cache, nows, n);
    var k := |s.queue[n].packets|;
    assert q[n].packets == s.queue[n].packets + q[n].packets[k..];
    ErrorsJoin(s.queue[n].packets, q[n].packets[k..], routes, local);
    ErrorsCauseNone(q[n].packets[k..], routes, local);
  }

  /** Only a packet that is no error causes one. */
  lemma {:induction false} ErrorFacts(p: Packet, routes: map<Uint32, Hop>, local: set<Uint32>)
    ensures var e := ErrorFor(p, routes, local);
            e != [] ==> Answerable(p) && !Answerable(e[0].packet)
  {
  }

  /** What is left to process gets lighter when one packet is replaced by at most its error. */
  lemma {:induction false} WeightDrops(ps: seq<Packet>, qs: seq<Packet>, j: nat, e: seq<Outgoing>)
    requires j < |ps| && |e| <= 1
    requires e != [] ==> Answerable(ps[j]) && !Answerable(e[0].packet)
    requires qs == ps || (e != [] && qs == ps + [e[0].packet])
    ensures Weight(qs[j + 1..]) < Weight(ps[j..])
  {
    assert ps[j..][1..] == ps[j + 1..];
    if qs != ps {
      assert qs[j + 1..] == ps[j + 1..] + [e[0].packet];
      WeightSnoc(ps[j + 1..], e[0].packet);
    }
  }

  /** Sending one packet adds it to entry n or leaves that entry alone. */
  lemma {:induction false} SendToEntry(s: State, n: nat, o: Outgoing, cache: seq<A.ArpEntry>, now: int)
    requires n < |s.queue|
    ensures var q := Send(s, o, cache, now).queue;
            n < |q| && (q[n].packets == s.queue[n].packets || q[n].packets == s.queue[n].packets + [o.packet])
  {
  }

  /** Sending the error for packet j of entry n, when the first j packets have been taken off. */
  lemma {:induction false} DrainStep(s0: State, s: State, n: nat, j: nat, os: seq<Outgoing>, nows: seq<int>,
      cache: seq<A.ArpEntry>, now: int, routes: map<Uint32, Hop>, local: set<Uint32>)
    returns (t: State, os': seq<Outgoing>, nows': seq<int>)
    requires |os| == |nows| && s == SendAll(s0, os, cache, nows)
    requires n < |s.queue| && j < |s.queue[n].packets|
    requires os == Errors(s.queue[n].packets[..j], routes, local)
    ensures var e := ErrorFor(s.queue[n].packets[j], routes, local);
            && os' == os + e && nows' == nows + (if e == [] then [] else [now])
            && t == (if e == [] then s else Send(s, e[0], cache, now)) && t == SendAll(s0, os', cache, nows')
            && n < |t.queue| && s.queue[n].packets <= t.queue[n].packets
            && Trim(t, n, j) == if e == [] then Trim(s, n, j) else Send(Trim(s, n, j), e[0], cache, now)
    ensures os' == Errors(t.queue[n].packets[..j + 1], routes, local)
    ensures Weight(t.queue[n].packets[j + 1..]) < Weight(s.queue[n].packets[j..])
  {
    hide Send, SendAll, Errors, Weight, ErrorFor, Answerable;
    var ps := s.queue[n].packets;
    var e := ErrorFor(ps[j], routes, local);
    ErrorsSnoc(ps, j, routes, local);
    ErrorFacts(ps[j], routes, local);
    t, os', nows' := s, os, nows;
    if e == [] {
      assert os + e == os && nows + [] == nows;
    } else {
      t, os', nows' := Send(s, e[0], cache, now), os + e, nows + [now];
      assert e == [e[0]];
      TrimSend(s, n, j, e[0], cache, now);
      SendAllSnoc(s0, os, e[0], cache, nows, now);
      SendToEntry(s, n, e[0], cache, now);
      assert t.queue[n].packets[..j + 1] == ps[..j + 1];
    }
    WeightDrops(ps, t.queue[n].packets, j, e);
  }

  lemma {:induction false} TrimMore(s: State, n: nat, j: nat)
    requires n < |s.queue| && j < |s.queue[n].packets|
    ensures var q := Trim(s, n, j).queue;
            && n < |q| && q[n].packets == s.queue[n].packets[j..]
            && Trim(s, n, j + 1).queue[n].packets == s.queue[n].packets[j + 1..]
            && q[n].packets != [] && q[n].packets[0] == s.queue[n].packets[j]
            && Trim(s, n, j + 1) == s.(queue := q[n := q[n].(packets := q[n].packets[1..])])
  {
  }

  /** The router's state and the two counts kept for the proofs. */
  datatype Snapshot = Snapshot(state: State, given: multiset<Packet>, discarded: multiset<Packet>, clock: int)

  /** The routing and interface tables and the ARP cache, none of which changes while an entry is drained. */
  datatype Tables = Tables(cache: seq<A.ArpEntry>, routes: map<Uint32, Hop>, local: set<Uint32>)

  /** How far the draining of an entry has come: s is the state had nothing been taken off. */
  datatype Progress = Progress(s: State, j: nat, errors: seq<Outgoing>, nows: seq<int>)

  /** From start to cur the first j packets of entry n have been processed. */
  ghost predicate Draining(start: Snapshot, cur: Snapshot, n: nat, x: Progress, t: Tables) {
    && |x.errors| == |x.nows| && x.s == SendAll(start.state, x.errors, t.cache, x.nows)
    && n < |x.s.queue| && x.j <= |x.s.queue[n].packets| && cur.state == Trim(x.s, n, x.j)
    && x.errors == Errors(x.s.queue[n].packets[..x.j], t.routes, t.local)
    && cur.given == start.given + multiset(PacketsOf(x.errors))
    && cur.discarded == start.discarded + multiset(x.s.queue[n].packets[..x.j])
    && start.clock <= cur.clock
    && forall i :: 0 <= i < |x.nows| ==> start.clock <= x.nows[i] <= cur.clock
  }

  /** Processing the packet at the head of entry n: its error is sent at time `now`, then it is freed. */
  function Processed(cur: Snapshot, n: nat, now: int, t: Tables): Snapshot
    requires n < |cur.state.queue| && cur.state.queue[n].packets != []
  {
    var p := cur.state.queue[n].packets[0];
    var e := ErrorFor(p, t.routes, t.local);
    var sent := if e == [] then cur.state else Send(cur.state, e[0], t.cache, now);
    SendKeepsEntries(cur.state, e, t.cache, now);
    var entry := sent.queue[n];
    Snapshot(sent.(queue := sent.queue[n := entry.(packets := entry.packets[1..])]),
             cur.given + multiset(PacketsOf(e)), cur.discarded + multiset{p}, now)
  }

  lemma {:induction false} SendKeepsEntries(s: State, e: seq<Outgoing>, cache: seq<A.ArpEntry>, now: int)
    ensures var sent := if e == [] then s else Send(s, e[0], cache, now);
            && |s.queue| <= |sent.queue|
            && forall i :: 0 <= i < |s.queue| ==> Grown(s.queue[i], sent.queue[i])
  {
  }

  lemma {:induction false} DrainCount(ps: seq<Packet>, qs: seq<Packet>, j: nat, os: seq<Outgoing>, sent: seq<Outgoing>)
    requires j < |ps| && ps <= qs
    ensures multiset(qs[..j + 1]) == multiset(ps[..j]) + multiset{ps[j]}
    ensures multiset(PacketsOf(os + sent)) == multiset(PacketsOf(os)) + multiset(PacketsOf(sent))
  {
    assert qs[..j + 1] == ps[..j] + [ps[j]];
    assert PacketsOf(os + sent) == PacketsOf(os) + PacketsOf(sent);
  }

  /** The queue and the wire after processing one packet. */
  lemma {:induction false} ProcessedState(start: Snapshot, cur: Snapshot, n: nat, x: Progress, now: int, t: Tables)
    returns (s: State, os: seq<Outgoing>, nows: seq<int>)
    requires Draining(start, cur, n, x, t) && n < |cur.state.queue| && cur.state.queue[n].packets != []
    ensures var e := ErrorFor(x.s.queue[n].packets[x.j], t.routes, t.local);
            && os == x.errors + e && nows == x.nows + (if e == [] then [] else [now])
            && s == SendAll(start.state, os, t.cache, nows)
            && n < |s.queue| && x.s.queue[n].packets <= s.queue[n].packets && x.j < |s.queue[n].packets|
            && os == Errors(s.queue[n].packets[..x.j + 1], t.routes, t.local)
            && Processed(cur, n, now, t).state == Trim(s, n, x.j + 1)
            && cur.state.queue[n].packets[0] == x.s.queue[n].packets[x.j]
            && Weight(s.queue[n].packets[x.j + 1..]) < Weight(cur.state.queue[n].packets)
  {
    hide SendAll, Errors, Weight, Send, ErrorFor;
    TrimMore(x.s, n, x.j);
    s, os, nows := DrainStep(start.state, x.s, n, x.j, x.errors, x.nows, t.cache, now, t.routes, t.local);
    TrimMore(s, n, x.j);
  }

  /** Processing one packet is progress, and leaves less to process. */
  lemma {:induction false} ProcessedProgress(start: Snapshot, cur: Snapshot, n: nat, x: Progress, now: int, t: Tables)
    returns (y: Progress)
    requires Draining(start, cur, n, x, t) && n < |cur.state.queue| && cur.state.queue[n].packets != []
    requires cur.clock <= now
    ensures var next := Processed(cur, n, now, t);
            && Draining(start, next, n, y, t) && n < |next.state.queue|
            && Weight(next.state.queue[n].packets) < Weight(cur.state.queue[n].packets)
  {
    hide SendAll, Errors, Weight, Send, ErrorFor, Enqueue;
    var s, os, nows := ProcessedState(start, cur, n, x, now, t);
    y := Progress(s, x.j + 1, os, nows);
    var e := ErrorFor(x.s.queue[n].packets[x.j], t.routes, t.local);
    DrainCount(x.s.queue[n].packets, s.queue[n].packets, x.j, x.errors, e);
    Regroup(start.given, multiset(PacketsOf(x.errors)), multiset(PacketsOf(e)));
    Regroup(start.discarded, multiset(x.s.queue[n].packets[..x.j]), multiset{x.s.queue[n].packets[x.j]});
  }

  lemma {:induction false} Regroup(a: multiset<Packet>, b: multiset<Packet>, c: multiset<Packet>)
    ensures (a + b) + c == a + (b + c)
  {
  }

  lemma {:induction false} DrainStarts(start: Snapshot, n: nat, t: Tables)
    requires n < |start.state.queue|
    ensures Draining(start, start, n, Progress(start.state, 0, [], []), t)
  {
    var s := start.state;
    assert s.queue[n].packets[..0] == [] && Trim(s, n, 0) == s;
  }

  /** What draining entry n from start to cur amounts to, when the errors were sent at times nows. */
  ghost predicate Drained(start: Snapshot, cur: Snapshot, n: nat, nows: seq<int>, t: Tables)
    requires n < |start.state.queue|
  {
    var errors := Errors(start.state.queue[n].packets, t.routes, t.local);
    && |nows| == |errors| && start.clock <= cur.clock
    && (forall i :: 0 <= i < |nows| ==> start.clock <= nows[i] <= cur.clock)
    && var s := SendAll(start.state, errors, t.cache, nows);
    && n < |s.queue| && cur.state == Trim(s, n, |s.queue[n].packets|)
    && cur.given == start.given + multiset(PacketsOf(errors))
    && cur.discarded == start.discarded + multiset(s.queue[n].packets)
  }

  lemma {:induction false} DrainEnds(start: Snapshot, cur: Snapshot, n: nat, x: Progress, t: Tables)
    requires n < |start.state.queue| && Draining(start, cur, n, x, t)
    requires n < |cur.state.queue| && cur.state.queue[n].packets == []
    ensures Drained(start, cur, n, x.nows, t)
  {
    assert x.j == |x.s.queue[n].packets|;
    assert x.s.queue[n].packets[..x.j] == x.s.queue[n].packets;
    DrainOwes(start.state, n, x.errors, t.cache, x.nows, t.routes, t.local);
  }

  // ----- a reply

  /** The frames that carry an entry's packets to mac, in queue order. */
  function Frames(e: Entry, mac: A.Mac): (fs: seq<Frame>)
    ensures |fs| == |e.packets|
    ensures forall i :: 0 <= i < |fs| ==> fs[i] == Frame(e.packets[i], mac, e.iface)
  {
    seq(|e.packets|, i requires 0 <= i < |e.packets| => Frame(e.packets[i], mac, e.iface))
  }

  /** What a reply for ip does: the packets waiting for it go out, and their entry goes. */
  function Delivered(s: State, ip: Uint32, mac: A.Mac): State {
    var k := FindHop(s.queue, ip);
    if k < |s.queue| then s.(queue := Without(s.queue, k), wire := s.wire + Frames(s.queue[k], mac)) else s
  }

  /** A reply moves packets from the queue to the wire; none is lost or sent twice. */
  lemma {:induction false} DeliveredConserves(s: State, ip: Uint32, mac: A.Mac)
    ensures Held(Delivered(s, ip, mac)) == Held(s)
  {
    hide Queued, FindHop, OnWire, Frames, Without;
    var k := FindHop(s.queue, ip);
    if k < |s.queue| {
      QueuedWithout(s.queue, k);
      assert OnWire(s.wire + Frames(s.queue[k], mac)) == OnWire(s.wire) + s.queue[k].packets;
    }
  }

  /**
   With one entry per next hop, nothing waits for ip after the reply, and no other entry has
   changed; what waited has gone out to the address in the reply, in order, by the interface
   it waited on, and nothing else has.
   */
  lemma {:induction false} DeliveredAnswers(s: State, ip: Uint32, mac: A.Mac)
    requires UniqueHops(s.queue)
    ensures var t := Delivered(s, ip, mac);
            && t.arpWire == s.arpWire
            && (forall e :: e in s.queue && e.nextHop == ip ==>
                  && |t.wire| == |s.wire| + |e.packets| && t.wire[..|s.wire|] == s.wire
                  && forall i :: 0 <= i < |e.packets| ==> t.wire[|s.wire| + i] == Frame(e.packets[i], mac, e.iface))
            && ((forall e :: e in s.queue ==> e.nextHop != ip) ==> t == s)
    ensures forall e :: e in Delivered(s, ip, mac).queue <==> e in s.queue && e.nextHop != ip
    ensures UniqueHops(Delivered(s, ip, mac).queue)
  {
    var k := FindHop(s.queue, ip);
    var r := Delivered(s, ip, mac).queue;
    if k < |s.queue| {
      assert forall i :: 0 <= i < |r| ==> r[i] == s.queue[if i < k then i else i + 1];
      forall e | e in s.queue && e.nextHop != ip
        ensures e in r
      {
        var i :| 0 <= i < |s.queue| && s.queue[i] == e;
        assert r[if i < k then i else i - 1] == e;
      }
    }
  }

  /** The state when the first j packets of entry n have been sent to mac. */
  function Partly(s: State, n: nat, j: nat, mac: A.Mac): State
    requires n < |s.queue| && j <= |s.queue[n].packets|
  {
    Trim(s, n, j).(wire := s.wire + Frames(s.queue[n], mac)[..j])
  }

  lemma {:induction false} PartlySends(s: State, n: nat, j: nat, cache: seq<A.ArpEntry>, now: int)
    requires n < |s.queue| && j < |s.queue[n].packets| && A.Find(cache, s.queue[n].nextHop) < |cache|
    ensures var e := s.queue[n];
            var mac := cache[A.Find(cache, e.nextHop)].mac;
            var t := Partly(s, n, j, mac);
            && n < |t.queue| && t.queue[n].packets == e.packets[j..] && t.queue[n].packets != []
            && var o := Outgoing(e.packets[j], e.nextHop, e.iface);
               var sent := Send(t, o, cache, now);
               sent.(queue := t.queue[n := t.queue[n].(packets := t.queue[n].packets[1..])]) == Partly(s, n, j + 1, mac)
  {
    var e := s.queue[n];
    var mac := cache[A.Find(cache, e.nextHop)].mac;
    assert Frames(e, mac)[..j + 1] == Frames(e, mac)[..j] + [Frames(e, mac)[j]];
    assert e.packets[j..][1..] == e.packets[j + 1..];
  }

  /**
   One step of the walk over an entry's packets when a reply is processed: the head is
   handed over and unlinked. On a cache miss it was queued again, behind the others.
   */
  function WalkStep(ps: seq<Packet>, hit: bool): seq<Packet>
    requires ps != []
  {
    ps[1..] + (if hit then [] else [ps[0]])
  }

  /** The walk, which chooses the successor before it hands the head over, takes more than j steps. */
  predicate Walking(ps: seq<Packet>, hit: bool, j: nat)
    decreases j
  {
    ps != [] && (j == 0 || (|ps| > 1 && Walking(WalkStep(ps, hit), hit, j - 1)))
  }

  /** The walk ends exactly on a hit, or when there is at most one packet to walk over. */
  lemma {:induction false} WalkEnds(ps: seq<Packet>, hit: bool)
    ensures (exists j: nat :: !Walking(ps, hit, j)) <==> hit || |ps| <= 1
  {
    if hit {
      HitEnds(ps);
    } else if |ps| <= 1 {
      assert !Walking(ps, hit, 1);
    } else {
      forall j: nat
        ensures Walking(ps, hit, j)
      {
        MissGoesOn(ps, j);
      }
    }
  }

  lemma {:induction false} HitEnds(ps: seq<Packet>)
    ensures !Walking(ps, true, |ps|)
    decreases |ps|
  {
    if ps != [] {
      HitEnds(WalkStep(ps, true));
    }
  }

  lemma {:induction false} MissGoesOn(ps: seq<Packet>, j: nat)
    requires |ps| > 1
    ensures Walking(ps, false, j)
    decreases j
  {
    if j > 0 {
      MissGoesOn(WalkStep(ps, false), j - 1);
    }
  }

  /** What is left of the state when the entry for ip is unlinked, whatever it holds. */
  function Dropped(s: State, ip: Uint32): State {
    var k := FindHop(s.queue, ip);
    if k < |s.queue| then s.(queue := Without(s.queue, k)) else s
  }

  /** The packets that wait for ip. */
  function WaitingFor(q: Queue, ip: Uint32): seq<Packet> {
    var k := FindHop(q, ip);
    if k < |q| then q[k].packets else []
  }

  /** The packets that went with the entry are in no account: the balance holds exactly when there were none. */
  lemma {:induction false} DropLoses(s: State, ip: Uint32)
    ensures Held(Dropped(s, ip)) + multiset(WaitingFor(s.queue, ip)) == Held(s)
    ensures Held(Dropped(s, ip)) == Held(s) <==> WaitingFor(s.queue, ip) == []
  {
    hide Queued, FindHop, OnWire, Without;
    var k := FindHop(s.queue, ip);
    if k < |s.queue| {
      QueuedWithout(s.queue, k);
    }
    AddsNothing(Held(Dropped(s, ip)), WaitingFor(s.queue, ip));
  }
}
