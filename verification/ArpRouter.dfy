/**
 The router's ARP machinery at work: sending or queueing packets, answering replies,
 and the timer that repeats requests and gives up on entries.

 Giving up on an entry sends ICMP errors, which are queued again, possibly on the very
 entry or list being walked. The loops below keep the walks of the original: the next
 entry is chosen before an entry is processed, the next packet after a packet is.
 */
module ArpRouter {
  import opened Sequences
  import opened Words
  import A = ArpCache
  import opened ArpQueue
  import opened ArpPass
  import opened ArpRun

  class Router {
    const cache: A.Cache
    var queue: Queue
    var wire: seq<Frame>
    var arpWire: seq<Request>
    var routes: map<Uint32, Hop>
    var local: set<Uint32>
    /** Packets handed to the router for sending, errors it made itself included. */
    ghost var given: multiset<Packet>
    /** Packets given up after their entry timed out. */
    ghost var discarded: multiset<Packet>

    constructor (cache: A.Cache)
      requires cache.Synced() && A.Unique(cache.entries)
      ensures Valid() && this.cache == cache && queue == [] && wire == [] && given == multiset{}
    {
      this.cache := cache;
      queue, wire, arpWire, routes, local := [], [], [], map[], {};
      given, discarded := multiset{}, multiset{};
    }

    ghost function Now(): State
      reads this
    {
      State(queue, wire, arpWire)
    }

    ghost function Snap(): Snapshot
      reads this, cache
    {
      Snapshot(Now(), given, discarded, cache.clock)
    }

    ghost function Fixed(): Tables
      reads this, cache
    {
      Tables(cache.entries, routes, local)
    }

    ghost function Here(): World
      reads this, cache
    {
      World(Snap(), Fixed())
    }

    ghost predicate Valid()
      reads this, cache
    {
      && cache.Synced() && A.Unique(cache.entries)
      && Sound(Snap())
    }

    // ----- sending

    method GetFromArpQueue(hop: Uint32) returns (k: nat)
      ensures k == FindHop(queue, hop)
    {
      k := 0;
      while k < |queue| && queue[k].nextHop != hop
        invariant k <= |queue| && forall j :: 0 <= j < k ==> queue[j].nextHop != hop
      {
        k := k + 1;
      }
    }

    method ArpQueueAdd(o: Outgoing)
      modifies this`queue, this`arpWire, cache`clock
      ensures cache.clock >= old(cache.clock)
      ensures Now() == Enqueue(old(Now()), o, cache.clock)
    {
      var k := GetFromArpQueue(o.nextHop);
      if k == |queue| {
        var now := cache.Time();
        arpWire := arpWire + [Request(o.nextHop, o.iface, now)];
        queue := queue + [Entry(o.iface, o.nextHop, 1, now, [o.packet], [now])];
      } else {
        queue := queue[k := queue[k].(packets := queue[k].packets + [o.packet])];
      }
    }

    method SendIp(o: Outgoing)
      modifies this`queue, this`wire, this`arpWire, cache`clock
      ensures cache.clock >= old(cache.clock)
      ensures Now() == Send(old(Now()), o, cache.entries, cache.clock)
    {
      var k := cache.InArpCache(o.nextHop);
      if k < |cache.entries| {
        wire := wire + [Frame(o.packet, cache.entries[k].mac, o.iface)];
      } else {
        ArpQueueAdd(o);
      }
    }

    /** A packet enters from outside. */
    method Transmit(o: Outgoing)
      requires Valid()
      modifies this`queue, this`wire, this`arpWire, this`given, cache`clock
      ensures Valid() && Happened(old(Here()), Submit(o), Here(), cache.arpTtl)
    {
      hide Sound, Send;
      ghost var x := Snap();
      SendIp(o);
      given := given + multiset{o.packet};
      SendKeepsSound(x, o, cache.entries, cache.clock);
    }

    // ----- a reply arrives

    /**
     Sends the packets of entry n in queue order. When the cache does not know the next
     hop, a packet rejoins the entry, so that more than one would be sent forever.
     */
    method SendEntry(n: nat)
      requires n < |queue| && FindHop(queue, queue[n].nextHop) == n
      requires A.Find(cache.entries, queue[n].nextHop) < |cache.entries| || |queue[n].packets| <= 1
      modifies this`queue, this`wire, this`arpWire, cache`clock
      ensures cache.clock >= old(cache.clock)
      ensures var e := old(queue)[n];
              var k := A.Find(cache.entries, e.nextHop);
              Now() == if k < |cache.entries| then Partly(old(Now()), n, |e.packets|, cache.entries[k].mac) else old(Now())
    {
      ghost var s := Now();
      ghost var c := A.Find(cache.entries, queue[n].nextHop);
      ghost var hit := c < |cache.entries|;
      ghost var j: nat := 0;
      if hit {
        assert Partly(s, n, 0, cache.entries[c].mac) == s by {
          assert s.queue[n].packets[0..] == s.queue[n].packets;
        }
      }
      hide Partly, Send;
      var more := queue[n].packets != [];
      while more
        invariant n < |queue| == |s.queue| && j <= |s.queue[n].packets| && cache.clock >= old(cache.clock)
        invariant hit ==> Now() == Partly(s, n, j, cache.entries[c].mac)
        invariant hit ==> queue[n] == s.queue[n].(packets := s.queue[n].packets[j..]) && more == (queue[n].packets != [])
        invariant !hit ==> Now() == s && (more ==> |queue[n].packets| == 1)
        decreases if hit then |queue[n].packets| else if more then 1 else 0
      {
        var aqe := queue[n];
        more := |aqe.packets| > 1;
        var o := Outgoing(aqe.packets[0], aqe.nextHop, aqe.iface);
        SendIp(o);
        if hit {
          PartlySends(s, n, j, cache.entries, cache.clock);
          SendHit(Partly(s, n, j, cache.entries[c].mac), o, cache.entries, cache.clock);
          j := j + 1;
        } else {
          SendMiss(s, n, o, cache.entries, cache.clock);
        }
        queue := queue[n := queue[n].(packets := queue[n].packets[1..])];
      }
    }

    /**
     Sends what waits for ip and drops the entry. On a cache miss the one packet that may
     wait goes with the entry; with more the walk would not end.
     */
    method SendQueuedPackets(ip: Uint32)
      requires UniqueHops(queue)
      requires var k := FindHop(queue, ip);
               A.Find(cache.entries, ip) < |cache.entries| || k == |queue| || |queue[k].packets| <= 1
      modifies this`queue, this`wire, this`arpWire, cache`clock
      ensures cache.clock >= old(cache.clock)
      ensures var c := A.Find(cache.entries, ip);
              Now() == if c < |cache.entries| then Delivered(old(Now()), ip, cache.entries[c].mac) else Dropped(old(Now()), ip)
    {
      ghost var s, q0 := Now(), queue;
      ghost var c := A.Find(cache.entries, ip);
      ghost var done := if c < |cache.entries| then Delivered(s, ip, cache.entries[c].mac) else Dropped(s, ip);
      ghost var k := FindHop(q0, ip);
      ghost var sent := false;
      NoneLeft(s, ip, done);
      var n: nat := 0;
      while n < |queue|
        invariant cache.clock >= old(cache.clock) && n <= |queue|
        invariant !sent ==> Now() == s && n <= k
        invariant sent ==> k < |q0| && Now() == done
        decreases |queue| - n
      {
        assert sent ==> queue[n] in done.queue;
        if queue[n].nextHop == ip {
          SendEntry(n);
          if c < |cache.entries| {
            PartlyDelivers(s, n, ip, cache.entries[c].mac);
          }
          queue := queue[..n] + queue[n + 1..];
          sent := true;
        } else {
          n := n + 1;
        }
      }
    }

    /** A reply sets the cache entry, then everything waiting for it is sent. */
    method ProcessArpReply(ip: Uint32, mac: A.Mac) returns (ghost at: int)
      requires Valid()
      modifies this`queue, this`wire, this`arpWire, cache`entries, cache`clock, cache`staged, cache`rows
      ensures Valid() && Replied(old(Here()), Here(), ip, mac, at)
    {
      hide Sound, UniqueHops, A.Updated, A.Unique, A.Mirror, A.Find, Delivered;
      ghost var x := Snap();
      cache.UpdateArpCache(ip, mac, false);
      at := cache.clock;
      UpdatedFinds(A.ArpEntry(ip, mac, at, false), old(cache.entries));
      SoundHops(x);
      SendQueuedPackets(ip);
      DeliveredKeepsSound(x, ip, mac, cache.clock);
    }

    /** A command adds a static entry; packets already waiting stay queued. */
    method AddStatic(ip: Uint32, mac: A.Mac)
      requires Valid()
      modifies cache`entries, cache`clock, cache`staged, cache`rows
      ensures Valid() && Happened(old(Here()), Static(ip, mac), Here(), cache.arpTtl)
    {
      hide Sound;
      cache.UpdateArpCache(ip, mac, true);
    }

    /** A command deletes the entry for ip. */
    method CliDelete(ip: Uint32)
      requires Valid()
      modifies cache`entries, cache`staged, cache`rows
      ensures Valid() && Happened(old(Here()), Delete(ip), Here(), cache.arpTtl)
    {
      hide Sound;
      A.DeletesOne(cache.entries, ip);
      var _ := cache.CliDelete(ip);
    }

    method CliNuke()
      requires Valid()
      modifies cache`entries, cache`staged, cache`rows
      ensures Valid() && Happened(old(Here()), Nuke, Here(), cache.arpTtl)
    {
      hide Sound;
      cache.Nuke();
    }

    /** The routing and interface tables change. */
    method ChangeTables(routes: map<Uint32, Hop>, local: set<Uint32>)
      requires Valid()
      modifies this`routes, this`local
      ensures Valid() && Happened(old(Here()), Retable(routes, local), Here(), cache.arpTtl)
    {
      hide Sound;
      this.routes, this.local := routes, local;
    }

    // ----- giving up on an entry

    /** The error for a packet that is given up, if one is owed: it is sent like any packet. */
    method SendError(p: Packet)
      modifies this`queue, this`wire, this`arpWire, this`given, cache`clock
      ensures cache.clock >= old(cache.clock)
      ensures var e := ErrorFor(p, routes, local);
              && Now() == (if e == [] then old(Now()) else Send(old(Now()), e[0], cache.entries, cache.clock))
              && given == old(given) + multiset(PacketsOf(e))
    {
      if p.proto != PROTO_ICMP || p.icmpType == ECHO_REPLY || p.icmpType == ECHO_REQUEST {
        if p.src !in local {
          var ip := p;
          if ip.ttl < 255 {
            ip := ip.(ttl := ip.ttl + 1);
          }
          if ip.src in routes {
            var h := routes[ip.src];
            var error := Packet(h.ifaceIp, ip.src, PROTO_ICMP, DEST_UNREACHABLE, 0x40, Quote(ip));
            SendIp(Outgoing(error, h.nextHop, h.iface));
            given := given + multiset{error};
          }
        }
      }
    }

    /** One packet: its error is sent, then the packet is freed and unlinked. */
    method DrainOne(n: nat)
      requires n < |queue| && queue[n].packets != []
      modifies this`queue, this`wire, this`arpWire, this`given, this`discarded, cache`clock
      ensures cache.clock >= old(cache.clock)
      ensures Snap() == Processed(old(Snap()), n, cache.clock, Fixed())
    {
      var p := queue[n].packets[0];
      ghost var s := Now();
      SendError(p);
      SendKeepsEntries(s, ErrorFor(p, routes, local), cache.entries, cache.clock);
      discarded := discarded + multiset{p};
      queue := queue[n := queue[n].(packets := queue[n].packets[1..])];
    }

    /**
     Processes the packets of entry n from the head until none is left, those that the
     errors put there included. The errors sent are exactly the ones the entry's packets
     owed at the start, and the rest of the queue is as if they had just been sent.
     */
    method DrainExpired(n: nat) returns (ghost nows: seq<int>)
      requires n < |queue|
      modifies this`queue, this`wire, this`arpWire, this`given, this`discarded, cache`clock
      ensures Drained(old(Snap()), Snap(), n, nows, Fixed())
    {
      ghost var start, t := Snap(), Fixed();
      ghost var x := Progress(start.state, 0, [], []);
      DrainStarts(start, n, t);
      hide Draining, Processed, Weight, Drained;
      while queue[n].packets != []
        invariant n < |queue| && Fixed() == t
        invariant Draining(start, Snap(), n, x, t)
        decreases Weight(queue[n].packets)
      {
        ghost var cur := Snap();
        DrainOne(n);
        x := ProcessedProgress(start, cur, n, x, cache.clock, t);
      }
      DrainEnds(start, Snap(), n, x, t);
      nows := x.nows;
    }

    /** The timer's visit to entry n: wait, ask again, or give up. */
    method VisitEntry(n: nat) returns (gaveUp: bool, ghost reading: int, ghost nows: seq<int>)
      requires n < |queue|
      modifies this`queue, this`wire, this`arpWire, this`given, this`discarded, cache`clock
      ensures Visit(old(Snap()), Snap(), n, reading, nows, Fixed()) && cache.clock >= old(cache.clock)
      ensures gaveUp == (reading - old(queue)[n].lastReqTime > 1 && old(queue)[n].requests >= MAX_REQUESTS)
    {
      ghost var x := Snap();
      var aqe := queue[n];
      var now := cache.Time();
      reading, nows, gaveUp := now, [], false;
      if now - aqe.lastReqTime > 1 {
        if aqe.requests < MAX_REQUESTS {
          now := cache.Time();
          queue := queue[n := aqe.(lastReqTime := now, requests := aqe.requests + 1, sentAt := aqe.sentAt + [now])];
          arpWire := arpWire + [Request(aqe.nextHop, aqe.iface, now)];
        } else {
          nows := DrainExpired(n);
          ghost var m := Snap();
          queue := queue[..n] + queue[n + 1..];
          gaveUp := true;
          assert GaveUp(m, Snap(), n);
          hide Drained;
        }
      }
    }

    /** One turn of the pass: the successor of entry n is chosen before the entry is visited. */
    method PassStep(n: nat, ghost x: Snapshot, ghost ts: seq<Turn>)
      returns (next: nat, more: bool, ghost us: seq<Turn>)
      requires n < |queue| && Turns(x, ts, Snap(), n, true, Fixed())
      modifies this`queue, this`wire, this`arpWire, this`given, this`discarded, cache`clock
      ensures Fixed() == old(Fixed()) && Turns(x, us, Snap(), next, more, Fixed())
      ensures next <= |queue| && (more ==> next < |queue|)
      ensures Doomed(queue, next) < Doomed(old(queue), n) ||
              (Doomed(queue, next) == Doomed(old(queue), n) && |queue| - next < |old(queue)| - n)
    {
      hide Visit, Doomed, Turns;
      more := n + 1 < |queue|;
      ghost var y, t := Snap(), Fixed();
      var gaveUp;
      ghost var reading, nows;
      gaveUp, reading, nows := VisitEntry(n);
      VisitEnds(y, Snap(), n, reading, nows, t);
      TurnsSnoc(x, ts, Turn(y, n, reading, nows, Snap()), t);
      us := ts + [Turn(y, n, reading, nows, Snap())];
      next := if gaveUp then n else n + 1;
    }

    /**
     One pass of the timer, turn by turn: it ends although giving up on entries queues new
     packets. What it leaves is stated of its turns.
     */
    method ProcessArpQueue() returns (ghost ts: seq<Turn>, ghost last: nat)
      requires Valid()
      modifies this`queue, this`wire, this`arpWire, this`given, this`discarded, cache`clock
      ensures Valid() && Turns(old(Snap()), ts, Snap(), last, false, Fixed()) && Fixed() == old(Fixed())
    {
      ghost var x, t := Snap(), Fixed();
      var n: nat := 0;
      var more := queue != [];
      ts := [];
      assert Turns(x, ts, x, 0, more, t);
      hide Turns, Doomed, Sound;
      while more
        invariant n <= |queue| && (more ==> n < |queue|) && cache.Synced() && A.Unique(cache.entries)
        invariant Fixed() == t && Turns(x, ts, Snap(), n, more, t)
        decreases Doomed(queue, n), |queue| - n
      {
        n, more, ts := PassStep(n, x, ts);
      }
      last := n;
      TurnsKeepSound(x, ts, Snap(), n, more, t);
    }

    /** One round of the ARP thread: old cache entries go, then the queue is looked through. */
    method ArpThreadRound()
      returns (ghost readings: seq<int>, ghost start: int, ghost ts: seq<Turn>, ghost last: nat)
      requires Valid()
      modifies this`queue, this`wire, this`arpWire, this`given, this`discarded
      modifies cache`entries, cache`clock, cache`staged, cache`rows
      ensures Valid() && Round(old(Here()), Here(), readings, start, ts, last, cache.arpTtl)
      ensures forall e :: e in old(queue) ==> Done(e, queue, |queue|, old(cache.clock), cache.clock)
    {
      ghost var x := Snap();
      hide Sound, Done, Turns;
      ghost var es := cache.entries;
      readings := cache.ExpireArpCache();
      A.KeepUnique(es, A.Fresh(es, readings, cache.arpTtl));
      start := cache.clock;
      LaterSound(x, start);
      ts, last := ProcessArpQueue();
      TurnsDone(x.(clock := start), ts, Snap(), last, Fixed());
      forall e | e in old(queue)
        ensures Done(e, queue, |queue|, x.clock, cache.clock)
      {
        DoneSince(e, queue, |queue|, x.clock, start, cache.clock);
      }
    }

    /** One event. */
    method Handle(e: Event)
      requires Valid()
      modifies this`queue, this`wire, this`arpWire, this`given, this`discarded, this`routes, this`local
      modifies cache`entries, cache`clock, cache`staged, cache`rows
      ensures Valid() && Happened(old(Here()), e, Here(), cache.arpTtl)
    {
      ghost var x := Here();
      hide Sound, Done, Round, Replied;
      match e {
        case Submit(o) => Transmit(o);
        case Reply(ip, mac) => ghost var at := ProcessArpReply(ip, mac);
        case Static(ip, mac) => AddStatic(ip, mac);
        case Delete(ip) => CliDelete(ip);
        case Nuke => CliNuke();
        case Retable(routes, local) => ChangeTables(routes, local);
        case Timer => ghost var readings, start, ts, last := ArpThreadRound();
      }
    }

    /** Any sequence of events: the worlds it goes through are linked event by event. */
    method Run(events: seq<Event>) returns (ghost ws: seq<World>)
      requires Valid()
      modifies this`queue, this`wire, this`arpWire, this`given, this`discarded, this`routes, this`local
      modifies cache`entries, cache`clock, cache`staged, cache`rows
      ensures Valid() && Runs(ws, events, cache.arpTtl)
      ensures ws[0] == old(Here()) && ws[|events|] == Here()
      ensures old(wire) <= wire && old(arpWire) <= arpWire && old(discarded) <= discarded
      ensures exists made :: Added(old(Snap()), Snap(), Submitted(events), made)
    {
      hide Sound, Happened;
      ws := [Here()];
      for i := 0 to |events|
        invariant Valid() && Runs(ws, events[..i], cache.arpTtl)
        invariant ws[0] == old(Here()) && ws[i] == Here()
      {
        Handle(events[i]);
        RunsSnoc(ws, events, i, Here(), cache.arpTtl);
        ws := ws + [Here()];
      }
      assert events[..|events|] == events;
      ghost var made := RunAccounts(ws, events, cache.arpTtl);
    }
  }

  lemma {:induction false} RunsSnoc(ws: seq<World>, es: seq<Event>, i: nat, w: World, ttl: int)
    requires i < |es| && Runs(ws, es[..i], ttl) && Happened(ws[i], es[i], w, ttl)
    ensures Runs(ws + [w], es[..i + 1], ttl)
  {
    hide Happened;
    var vs, fs := ws + [w], es[..i + 1];
    forall k | 0 <= k < |fs|
      ensures Happened(vs[k], fs[k], vs[k + 1], ttl)
    {
      assert k < i ==> Happened(ws[k], es[..i][k], ws[k + 1], ttl);
    }
  }

  lemma {:induction false} SendMiss(s: State, n: nat, o: Outgoing, cache: seq<A.ArpEntry>, now: int)
    requires n < |s.queue| && FindHop(s.queue, o.nextHop) == n && s.queue[n].packets == [o.packet]
    requires A.Find(cache, o.nextHop) == |cache|
    ensures var t := Send(s, o, cache, now);
            |t.queue| == |s.queue| && t.(queue := t.queue[n := t.queue[n].(packets := t.queue[n].packets[1..])]) == s
  {
    assert ([o.packet] + [o.packet])[1..] == [o.packet];
  }

  /** With one entry per next hop, unlinking the entry for ip leaves none. */
  lemma {:induction false} NoneLeft(s: State, ip: Uint32, done: State)
    requires UniqueHops(s.queue) && done.queue == Dropped(s, ip).queue
    ensures forall e :: e in done.queue ==> e.nextHop != ip
  {
  }

  lemma {:induction false} SendHit(s: State, o: Outgoing, cache: seq<A.ArpEntry>, now: int)
    requires A.Find(cache, o.nextHop) < |cache|
    ensures Send(s, o, cache, now).queue == s.queue
  {
  }

  lemma {:induction false} PartlyDelivers(s: State, n: nat, ip: Uint32, mac: A.Mac)
    requires n < |s.queue| && n == FindHop(s.queue, ip)
    ensures var t := Partly(s, n, |s.queue[n].packets|, mac);
            |t.queue| == |s.queue| && t.(queue := Without(t.queue, n)) == Delivered(s, ip, mac)
  {
    var fs := Frames(s.queue[n], mac);
    assert fs[..|fs|] == fs;
  }

  lemma {:induction false} UpdatedFinds(e: A.ArpEntry, es: seq<A.ArpEntry>)
    requires A.Unique(es)
    ensures var u := A.Updated(es, e);
            A.Unique(u) && A.Find(u, e.ip) < |u| && u[A.Find(u, e.ip)] == e
  {
    var u := A.Updated(es, e);
    var k := A.Find(es, e.ip);
    assert u[k] == e;
    A.FindOnly(u, k);
  }

  lemma {:induction false} SoundHops(x: Snapshot)
    requires Sound(x)
    ensures UniqueHops(x.state.queue)
  {
  }

  /** An entry done since a later time is done since an earlier one. */
  lemma {:induction false} DoneSince(e: Entry, q: Queue, n: nat, since: int, later: int, now: int)
    requires since <= later && Done(e, q, n, later, now)
    ensures Done(e, q, n, since, now)
  {
    if since - e.lastReqTime > 1 && e.requests < MAX_REQUESTS {
      var i :| 0 <= i < n && Repeated(e, q[i], later);
      assert Repeated(e, q[i], since);
    }
  }
}
