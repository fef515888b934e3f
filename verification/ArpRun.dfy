/**
 Runs of the router's ARP machinery, as values: what each event does to the packets, the
 wire, the cache and the tables, and what any sequence of events adds up to.
 */
module ArpRun {
  import opened Sequences
  import opened Words
  import A = ArpCache
  import opened ArpQueue
  import opened ArpPass

  /** What can happen to the router. */
  datatype Event =
    | Submit(o: Outgoing)
    | Reply(ip: Uint32, mac: A.Mac)
    | Static(ip: Uint32, mac: A.Mac)
    | Delete(ip: Uint32)
    | Nuke
    | Retable(routes: map<Uint32, Hop>, local: set<Uint32>)
    | Timer

  datatype World = World(snap: Snapshot, tables: Tables)

  /** A reply noted in the cache at the given time, and answered from the queue. */
  ghost predicate Replied(x: World, y: World, ip: Uint32, mac: A.Mac, at: int) {
    && x.snap.clock <= at <= y.snap.clock
    && y.tables == x.tables.(cache := A.Updated(x.tables.cache, A.ArpEntry(ip, mac, at, false)))
    && y.snap == x.snap.(state := Delivered(x.snap.state, ip, mac), clock := y.snap.clock)
  }

  /**
   One round of the timer: the cache entries found too old at their readings go, and from
   `start` on the pass takes its turns until there is no more.
   */
  ghost predicate Round(x: World, y: World, readings: seq<int>, start: int, ts: seq<Turn>, n: nat, ttl: int) {
    && |readings| == |x.tables.cache| && x.snap.clock <= start
    && (forall i :: 0 <= i < |readings| ==> x.snap.clock <= readings[i] <= start)
    && y.tables == x.tables.(cache := Keep(x.tables.cache, A.Fresh(x.tables.cache, readings, ttl)))
    && Turns(x.snap.(clock := start), ts, y.snap, n, false, y.tables)
  }

  ghost predicate Happened(x: World, e: Event, y: World, ttl: int) {
    match e
    case Submit(o) =>
      && y.tables == x.tables && x.snap.clock <= y.snap.clock
      && y.snap == Snapshot(Send(x.snap.state, o, x.tables.cache, y.snap.clock),
                            x.snap.given + multiset{o.packet}, x.snap.discarded, y.snap.clock)
    case Reply(ip, mac) => exists at: int :: Replied(x, y, ip, mac, at)
    case Static(ip, mac) => y == x.(tables := x.tables.(cache := A.Updated(x.tables.cache, A.ArpEntry(ip, mac, 0, true))))
    case Delete(ip) =>
      y == x.(tables := x.tables.(cache := Keep(x.tables.cache, A.Others(x.tables.cache, ip))))
    case Nuke => y == x.(tables := x.tables.(cache := []))
    case Retable(routes, local) => y == x.(tables := Tables(x.tables.cache, routes, local))
    case Timer =>
      exists readings: seq<int>, start: int, ts: seq<Turn>, n: nat :: Round(x, y, readings, start, ts, n, ttl)
  }

  /** The events take the router through these worlds. */
  ghost predicate Runs(ws: seq<World>, es: seq<Event>, ttl: int) {
    |ws| == |es| + 1 && forall i :: 0 <= i < |es| ==> Happened(ws[i], es[i], ws[i + 1], ttl)
  }

  // ----- what a run adds up to

  function SubmittedBy(e: Event): seq<Packet> {
    if e.Submit? then [e.o.packet] else []
  }

  function Submitted(es: seq<Event>): seq<Packet> {
    if es == [] then [] else Submitted(es[..|es| - 1]) + SubmittedBy(es[|es| - 1])
  }

  /**
   From x to y nothing sent was taken back, the packets `ps` were handed over and the
   errors `made` besides, at most one for each packet discarded.
   */
  ghost predicate Added(x: Snapshot, y: Snapshot, ps: seq<Packet>, made: multiset<Packet>) {
    && Sent(x.state, y.state) && x.clock <= y.clock && x.discarded <= y.discarded
    && y.given == x.given + multiset(ps) + made
    && (forall p :: p in made ==> !Answerable(p))
    && |made| <= |y.discarded| - |x.discarded|
  }

  /**
   What one event has discarded and made: only the timer discards, and then an error is
   handed over for each discarded packet that one is owed for, and nothing else is made.
   */
  ghost predicate Accounted(x: World, e: Event, y: World) {
    exists lost: seq<Packet>, os: seq<Outgoing>, at: seq<nat> ::
      && ErrorsOwed(os, lost, at, x.tables.routes, x.tables.local) && (e.Timer? || lost == [])
      && y.snap.discarded == x.snap.discarded + multiset(lost)
      && y.snap.given == x.snap.given + multiset(SubmittedBy(e)) + multiset(PacketsOf(os))
  }

  lemma {:induction false} NothingLost(x: World, e: Event, y: World)
    requires y.snap.discarded == x.snap.discarded && y.snap.given == x.snap.given + multiset(SubmittedBy(e))
    ensures Accounted(x, e, y)
  {
    assert ErrorsOwed([], [], [], x.tables.routes, x.tables.local);
    assert multiset(PacketsOf([])) == multiset{};
  }

  lemma {:induction false} FewErrors(ps: seq<Packet>, routes: map<Uint32, Hop>, local: set<Uint32>)
    ensures |Errors(ps, routes, local)| <= |ps|
  {
    if ps != [] {
      FewErrors(ps[1..], routes, local);
    }
  }

  lemma {:induction false} AccountsAdd(x: Snapshot, y: Snapshot, lost: seq<Packet>, t: Tables) returns (made: multiset<Packet>)
    requires Accounts(x, y, lost, t) && x.clock <= y.clock
    ensures Added(x, y, [], made)
  {
    var os := Errors(lost, t.routes, t.local);
    made := multiset(PacketsOf(os));
    FewErrors(lost, t.routes, t.local);
    ErrorsAreErrors(lost, t.routes, t.local);
    forall p | p in made
      ensures !Answerable(p)
    {
      assert p in PacketsOf(os);
    }
    hide Errors, PacketsOf, Answerable;
    assert |made| == |os|;
    assert |y.discarded| == |x.discarded| + |lost|;
  }

  lemma {:induction false} RoundAdds(x: World, y: World, readings: seq<int>, start: int, ts: seq<Turn>, n: nat, ttl: int)
    returns (made: multiset<Packet>)
    requires Sound(x.snap) && Round(x, y, readings, start, ts, n, ttl)
    ensures Sound(y.snap) && Added(x.snap, y.snap, [], made) && Accounted(x, Timer, y)
  {
    var z := x.snap.(clock := start);
    LaterSound(x.snap, start);
    TurnsKeepSound(z, ts, y.snap, n, false, y.tables);
    var lost := TurnsAccount(z, ts, y.snap, n, false, y.tables);
    SameAccounts(z, x.snap, y.snap, lost, y.tables);
    hide Sound, Turns, Accounts, Added, ErrorsOwed;
    made := AccountsAdd(x.snap, y.snap, lost, y.tables);
    var os, at := AccountsOwed(x.snap, y.snap, lost, y.tables);
    assert multiset(SubmittedBy(Timer)) == multiset{};
  }

  lemma {:induction false} SubmitAdds(x: Snapshot, o: Outgoing, cache: seq<A.ArpEntry>, now: int)
    requires Sound(x) && x.clock <= now
    ensures var y := Snapshot(Send(x.state, o, cache, now), x.given + multiset{o.packet}, x.discarded, now);
            Sound(y) && Added(x, y, [o.packet], multiset{})
  {
    SendRecorded(x.state, o, cache, now);
    SendKeepsSound(x, o, cache, now);
    hide Sound, Send;
  }

  lemma {:induction false} ReplyAdds(x: World, y: World, ip: Uint32, mac: A.Mac, at: int)
    requires Sound(x.snap) && Replied(x, y, ip, mac, at)
    ensures Sound(y.snap) && Added(x.snap, y.snap, [], multiset{})
  {
    SoundRecorded(x.snap);
    hide Sound, Delivered, Recorded, A.Updated;
    DeliveredKeepsSound(x.snap, ip, mac, y.snap.clock);
    DeliveredRecorded(x.snap.state, ip, mac);
  }

  lemma {:induction false} RepliedSame(x: World, y: World, ip: Uint32, mac: A.Mac, at: int)
    requires Replied(x, y, ip, mac, at)
    ensures y.snap.given == x.snap.given && y.snap.discarded == x.snap.discarded
  {
  }

  lemma {:induction false} EventAdds(x: World, e: Event, y: World, ttl: int) returns (made: multiset<Packet>)
    requires Sound(x.snap) && Happened(x, e, y, ttl)
    ensures Sound(y.snap) && Added(x.snap, y.snap, SubmittedBy(e), made) && Accounted(x, e, y)
  {
    hide Sound, Send, Delivered, Round, Replied, Accounted;
    made := multiset{};
    match e {
      case Submit(o) =>
        SubmitAdds(x.snap, o, x.tables.cache, y.snap.clock);
        assert multiset([o.packet]) == multiset{o.packet};
        NothingLost(x, e, y);
      case Reply(ip, mac) =>
        var at: int :| Replied(x, y, ip, mac, at);
        ReplyAdds(x, y, ip, mac, at);
        RepliedSame(x, y, ip, mac, at);
        NothingLost(x, e, y);
      case Timer =>
        var readings: seq<int>, start: int, ts: seq<Turn>, n: nat :| Round(x, y, readings, start, ts, n, ttl);
        made := RoundAdds(x, y, readings, start, ts, n, ttl);
      case _ => NothingLost(x, e, y);
    }
  }

  lemma {:induction false} AddedJoin(x: Snapshot, y: Snapshot, z: Snapshot, ps: seq<Packet>, qs: seq<Packet>,
      m: multiset<Packet>, k: multiset<Packet>)
    requires Added(x, y, ps, m) && Added(y, z, qs, k)
    ensures Added(x, z, ps + qs, m + k)
  {
    SentJoin(x.state, y.state, z.state);
    hide Sent, Answerable;
    calc {
      z.given;
      (x.given + multiset(ps) + m) + multiset(qs) + k;
      x.given + (multiset(ps) + multiset(qs)) + (m + k);
      x.given + multiset(ps + qs) + (m + k);
    }
  }

  /**
   Over any run from a sound state: every state on the way is sound, nothing sent is taken
   back, and what has been handed over is what was there, what the events submitted, and
   errors: event by event exactly those owed for the packets it discards.
   */
  lemma {:induction false} RunAccounts(ws: seq<World>, es: seq<Event>, ttl: int) returns (made: multiset<Packet>)
    requires Runs(ws, es, ttl) && Sound(ws[0].snap)
    ensures forall i :: 0 <= i < |ws| ==> Sound(ws[i].snap)
    ensures forall i :: 0 <= i < |es| ==> Accounted(ws[i], es[i], ws[i + 1])
    ensures Added(ws[0].snap, ws[|es|].snap, Submitted(es), made)
    decreases |es|
  {
    hide Sound, Happened, Added, Accounted;
    if es == [] {
      NothingAdded(ws[0].snap);
      made := multiset{};
    } else {
      var n := |es| - 1;
      assert Happened(ws[n], es[n], ws[n + 1], ttl);
      forall i | 0 <= i < n
        ensures Happened(ws[..n + 1][i], es[..n][i], ws[..n + 1][i + 1], ttl)
      {
        assert Happened(ws[i], es[i], ws[i + 1], ttl);
      }
      var m := RunAccounts(ws[..n + 1], es[..n], ttl);
      assert Sound(ws[..n + 1][n].snap);
      var k := EventAdds(ws[n], es[n], ws[n + 1], ttl);
      AddedJoin(ws[0].snap, ws[n].snap, ws[n + 1].snap, Submitted(es[..n]), SubmittedBy(es[n]), m, k);
      made := m + k;
      forall i | 0 <= i < |ws|
        ensures Sound(ws[i].snap)
      {
        assert i <= n ==> Sound(ws[..n + 1][i].snap);
      }
      forall i | 0 <= i < |es|
        ensures Accounted(ws[i], es[i], ws[i + 1])
      {
        assert i < n ==> Accounted(ws[..n + 1][i], es[..n][i], ws[..n + 1][i + 1]);
      }
    }
  }

  lemma {:induction false} NothingAdded(x: Snapshot)
    ensures Added(x, x, [], multiset{})
  {
  }

  /**
   A packet that was submitted once in the run of a router that had not seen it before, and
   that is no ICMP error itself, is in the end in exactly one place: transmitted, queued,
   or discarded after its entry timed out.
   */
  lemma {:induction false} ExactlyOnce(ws: seq<World>, es: seq<Event>, ttl: int, p: Packet)
    requires Runs(ws, es, ttl) && Sound(ws[0].snap)
    requires ws[0].snap.given[p] == 0 && multiset(Submitted(es))[p] == 1 && Answerable(p)
    ensures var x := ws[|es|].snap;
            var onWire, queued, gone := multiset(OnWire(x.state.wire))[p], Queued(x.state.queue)[p], x.discarded[p];
            && onWire + queued + gone == 1
            && (queued == 1 <==> exists i :: 0 <= i < |x.state.queue| && p in x.state.queue[i].packets)
  {
    var made := RunAccounts(ws, es, ttl);
    var x := ws[|es|].snap;
    assert x.given[p] == 1;
    QueuedSomewhere(x.state.queue, p);
    assert x.given[p] == (Held(x.state) + x.discarded)[p];
  }

  lemma {:induction false} QueuedSomewhere(q: Queue, p: Packet)
    ensures p in Queued(q) <==> exists i :: 0 <= i < |q| && p in q[i].packets
  {
    if q != [] {
      QueuedSomewhere(q[1..], p);
      if p in Queued(q[1..]) {
        var i :| 0 <= i < |q[1..]| && p in q[1..][i].packets;
        assert p in q[i + 1].packets;
      }
      if i :| 0 <= i < |q| && p in q[i].packets {
        assert i > 0 ==> p in q[1..][i - 1].packets;
      }
    }
  }

  /**
   In a sound state the requests an entry has issued are the last ones on the wire for its
   next hop: at most five, each more than a second after the one before.
   */
  lemma {:induction false} RequestsArePaced(x: Snapshot, i: nat)
    requires Sound(x) && i < |x.state.queue|
    ensures var e := x.state.queue[i];
            var ts := TimesFor(x.state.arpWire, e.nextHop);
            && 1 <= e.requests <= MAX_REQUESTS && e.requests <= |ts|
            && forall j :: |ts| - e.requests <= j < |ts| - 1 ==> ts[j + 1] - ts[j] > 1
  {
    var e := x.state.queue[i];
    var ts := TimesFor(x.state.arpWire, e.nextHop);
    assert Paced(e, x.clock) && EndsWith(ts, e.sentAt);
    var d := |ts| - |e.sentAt|;
    forall j | d <= j < |ts| - 1
      ensures ts[j + 1] - ts[j] > 1
    {
      assert ts[d..][j - d] == e.sentAt[j - d] && ts[d..][j - d + 1] == e.sentAt[j - d + 1];
    }
  }
}
