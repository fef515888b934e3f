/**
 Where packets go: everything queued or on the wire belongs to a packet that was handed
 over, on its way to the next hop it was handed over for.
 */
module ArpPaths {
  import opened Sequences
  import opened Words
  import A = ArpCache
  import opened ArpQueue
  import opened ArpPass
  import opened ArpRun

  // ----- what it means

  /** Something was handed over for this next hop and interface. */
  ghost predicate Named(hop: Uint32, iface: string, os: set<Outgoing>) {
    exists o :: o in os && o.nextHop == hop && o.iface == iface
  }

  /** The packet was handed over for this next hop. */
  ghost predicate Bound(p: Packet, hop: Uint32, os: set<Outgoing>) {
    exists o :: o in os && o.packet == p && o.nextHop == hop
  }

  /** The entry waits on an interface named for its next hop, with packets bound for that hop. */
  ghost predicate EntryRouted(e: Entry, os: set<Outgoing>) {
    Named(e.nextHop, e.iface, os) && forall p :: p in e.packets ==> Bound(p, e.nextHop, os)
  }

  /**
   The frame's packet is bound for a next hop that the cache has known under the frame's
   hardware address, and leaves by an interface named for that hop.
   */
  ghost predicate FrameRouted(f: Frame, os: set<Outgoing>, known: set<A.ArpEntry>) {
    exists c :: c in known && c.mac == f.mac && Bound(f.packet, c.ip, os) && Named(c.ip, f.iface, os)
  }

  ghost predicate Routed(s: State, os: set<Outgoing>, known: set<A.ArpEntry>) {
    && (forall e :: e in s.queue ==> EntryRouted(e, os))
    && (forall f :: f in s.wire ==> FrameRouted(f, os, known))
    && (forall r :: r in s.arpWire ==> Named(r.ip, r.iface, os))
  }

  /** All entries of a cache. */
  ghost predicate Within(cache: seq<A.ArpEntry>, known: set<A.ArpEntry>) {
    forall c :: c in cache ==> c in known
  }

  lemma {:induction false} RoutedMore(s: State, os: set<Outgoing>, known: set<A.ArpEntry>,
      more: set<Outgoing>, wider: set<A.ArpEntry>)
    requires Routed(s, os, known) && os <= more && known <= wider
    ensures Routed(s, more, wider)
  {
    forall e | e in s.queue
      ensures EntryRouted(e, more)
    {
      assert EntryRouted(e, os);
    }
    forall f | f in s.wire
      ensures FrameRouted(f, more, wider)
    {
      assert FrameRouted(f, os, known);
    }
    forall r | r in s.arpWire
      ensures Named(r.ip, r.iface, more)
    {
      assert Named(r.ip, r.iface, os);
    }
  }

  // ----- every change of the queue keeps it

  lemma {:induction false} SendRouted(s: State, o: Outgoing, cache: seq<A.ArpEntry>, now: int,
      os: set<Outgoing>, known: set<A.ArpEntry>)
    requires Routed(s, os, known) && Within(cache, known)
    ensures Routed(Send(s, o, cache, now), os + {o}, known)
  {
    var more := os + {o};
    RoutedMore(s, os, known, more, known);
    assert Bound(o.packet, o.nextHop, more) && Named(o.nextHop, o.iface, more);
    var t := Send(s, o, cache, now);
    var c, k := A.Find(cache, o.nextHop), FindHop(s.queue, o.nextHop);
    hide Bound, Named;
    if c < |cache| {
      assert cache[c] in cache;
      assert FrameRouted(Frame(o.packet, cache[c].mac, o.iface), more, known);
    } else if k < |s.queue| {
      assert s.queue[k] in s.queue && EntryRouted(Extended(s.queue[k], o.packet), more);
    } else {
      assert EntryRouted(NewEntry(o, now), more);
    }
    hide EntryRouted, FrameRouted;
  }

  function SetOf(os: seq<Outgoing>): set<Outgoing> {
    set o | o in os
  }

  lemma {:induction false} SendAllRouted(s: State, os: seq<Outgoing>, cache: seq<A.ArpEntry>, nows: seq<int>,
      given: set<Outgoing>, known: set<A.ArpEntry>)
    requires |os| == |nows| && Routed(s, given, known) && Within(cache, known)
    ensures Routed(SendAll(s, os, cache, nows), given + SetOf(os), known)
    decreases |os|
  {
    hide Routed, Send, Within;
    if os == [] {
      assert given + SetOf(os) == given;
    } else {
      var n := |os| - 1;
      SendAllRouted(s, os[..n], cache, nows[..n], given, known);
      SendRouted(SendAll(s, os[..n], cache, nows[..n]), os[n], cache, nows[n], given + SetOf(os[..n]), known);
      assert os == os[..n] + [os[n]];
      assert given + SetOf(os[..n]) + {os[n]} == given + SetOf(os);
    }
  }

  lemma {:induction false} WithoutRouted(s: State, n: nat, os: set<Outgoing>, known: set<A.ArpEntry>)
    requires n < |s.queue| && Routed(s, os, known)
    ensures Routed(s.(queue := Without(s.queue, n)), os, known)
  {
    hide EntryRouted, FrameRouted, Named;
  }

  lemma {:induction false} RepeatRouted(s: State, n: nat, now: int, os: set<Outgoing>, known: set<A.ArpEntry>)
    requires n < |s.queue| && Routed(s, os, known)
    ensures var e := s.queue[n];
            Routed(s.(queue := s.queue[n := Repeat(e, now)], arpWire := s.arpWire + [Request(e.nextHop, e.iface, now)]), os, known)
  {
    var e := s.queue[n];
    assert EntryRouted(e, os) && EntryRouted(Repeat(e, now), os);
    hide EntryRouted, FrameRouted, Bound, Repeat;
  }

  lemma {:induction false} DeliveredRouted(s: State, c: A.ArpEntry, os: set<Outgoing>, known: set<A.ArpEntry>)
    requires Routed(s, os, known) && c in known
    ensures Routed(Delivered(s, c.ip, c.mac), os, known)
  {
    var k := FindHop(s.queue, c.ip);
    if k < |s.queue| {
      var e := s.queue[k];
      assert EntryRouted(e, os);
      forall f | f in Frames(e, c.mac)
        ensures FrameRouted(f, os, known)
      {
        var i :| 0 <= i < |e.packets| && f == Frames(e, c.mac)[i];
        assert e.packets[i] in e.packets;
      }
      WithoutRouted(s, k, os, known);
    }
    hide EntryRouted, FrameRouted, Named, Frames, Without;
  }

  // ----- a visit, and a pass

  /** o answers a packet that has been discarded. */
  ghost predicate Owed(o: Outgoing, discarded: multiset<Packet>, t: Tables) {
    exists p :: p in discarded && Owes(p, t.routes, t.local) && Answers(o, p, t.routes)
  }

  lemma {:induction false} ErrorsAnswer(ps: seq<Packet>, discarded: multiset<Packet>, t: Tables)
    ensures (forall p :: p in ps ==> p in discarded) ==>
              forall o :: o in SetOf(Errors(ps, t.routes, t.local)) ==> Owed(o, discarded, t)
  {
    var os := Errors(ps, t.routes, t.local);
    var at := ErrorsAreOwed(ps, t.routes, t.local);
    hide Owes, Answers, Errors;
    forall o | o in SetOf(os) && forall p :: p in ps ==> p in discarded
      ensures Owed(o, discarded, t)
    {
      var i :| 0 <= i < |os| && os[i] == o;
      assert at[i] in at && ps[at[i]] in ps;
    }
  }

  lemma {:induction false} GiveUpRouted(x: Snapshot, m: Snapshot, y: Snapshot, n: nat, nows: seq<int>, t: Tables,
      os: set<Outgoing>, known: set<A.ArpEntry>) returns (made: set<Outgoing>)
    requires n < |x.state.queue| && Drained(x, m, n, nows, t) && GaveUp(m, y, n)
    requires Routed(x.state, os, known) && Within(t.cache, known)
    ensures Routed(y.state, os + made, known) && x.discarded <= y.discarded
    ensures forall o :: o in made ==> Owed(o, y.discarded, t)
  {
    var ps := x.state.queue[n].packets;
    var errors := Errors(ps, t.routes, t.local);
    made := SetOf(errors);
    SendAllRouted(x.state, errors, t.cache, nows, os, known);
    var s := SendAll(x.state, errors, t.cache, nows);
    SendAllGrows(x.state, errors, t.cache, nows, x.clock);
    assert Grown(x.state.queue[n], s.queue[n]);
    WithoutRouted(s, n, os + made, known);
    assert y.state == s.(queue := Without(s.queue, n));
    ErrorsAnswer(ps, y.discarded, t);
    hide Routed, Errors, SendAll, Owed, Within;
    forall p | p in ps
      ensures p in y.discarded
    {
      assert p in s.queue[n].packets && p in multiset(s.queue[n].packets);
    }
  }

  lemma {:induction false} OwedLater(o: Outgoing, before: multiset<Packet>, after: multiset<Packet>, t: Tables)
    requires Owed(o, before, t) && before <= after
    ensures Owed(o, after, t)
  {
  }

  lemma {:induction false} VisitRouted(x: Snapshot, y: Snapshot, n: nat, reading: int, nows: seq<int>, t: Tables,
      os: set<Outgoing>, known: set<A.ArpEntry>) returns (made: set<Outgoing>)
    requires Visit(x, y, n, reading, nows, t) && Routed(x.state, os, known) && Within(t.cache, known)
    ensures Routed(y.state, os + made, known) && x.discarded <= y.discarded
    ensures forall o :: o in made ==> Owed(o, y.discarded, t)
  {
    hide Drained, Routed, Owed, Within;
    var e := x.state.queue[n];
    made := {};
    assert os + made == os;
    if reading - e.lastReqTime > 1 {
      if e.requests < MAX_REQUESTS {
        RepeatRouted(x.state, n, y.clock, os, known);
      } else {
        var z := x.(clock := reading);
        var m: Snapshot :| m.clock == y.clock && Drained(z, m, n, nows, t) && GaveUp(m, y, n);
        made := GiveUpRouted(z, m, y, n, nows, t, os, known);
      }
    }
  }

  lemma {:induction false} TurnsRouted(x: Snapshot, ts: seq<Turn>, y: Snapshot, n: nat, more: bool, t: Tables,
      os: set<Outgoing>, known: set<A.ArpEntry>) returns (made: set<Outgoing>)
    requires Turns(x, ts, y, n, more, t) && Routed(x.state, os, known) && Within(t.cache, known)
    ensures Routed(y.state, os + made, known) && x.discarded <= y.discarded
    ensures forall o :: o in made ==> Owed(o, y.discarded, t)
    decreases |ts|
  {
    hide Routed, Owed, Visit, Within;
    if ts == [] {
      made := {};
      assert os + made == os;
    } else {
      var l := ts[|ts| - 1];
      var first := TurnsRouted(x, ts[..|ts| - 1], l.before, l.n, true, t, os, known);
      var last := VisitRouted(l.before, y, l.n, l.reading, l.nows, t, os + first, known);
      made := first + last;
      assert os + first + last == os + made;
      forall o | o in first
        ensures Owed(o, y.discarded, t)
      {
        OwedLater(o, l.before.discarded, y.discarded, t);
      }
    }
  }

  // ----- a run

  /** Every entry the cache has held. */
  function Known(ws: seq<World>): set<A.ArpEntry> {
    set w, c | w in ws && c in w.tables.cache :: c
  }

  /** The event handed o over, or has o made for a packet it discarded. */
  ghost predicate Source(o: Outgoing, x: World, e: Event, y: World) {
    e == Submit(o) || (e.Timer? && Owed(o, y.snap.discarded, x.tables))
  }

  lemma {:induction false} TimerRouted(x: World, y: World, ttl: int, os: set<Outgoing>, known: set<A.ArpEntry>)
    returns (more: set<Outgoing>)
    requires Happened(x, Timer, y, ttl) && Routed(x.snap.state, os, known)
    requires Within(x.tables.cache, known) && Within(y.tables.cache, known)
    ensures Routed(y.snap.state, os + more, known) && forall o :: o in more ==> Source(o, x, Timer, y)
  {
    hide Routed, Within;
    var readings: seq<int>, start: int, ts: seq<Turn>, n: nat :| Round(x, y, readings, start, ts, n, ttl);
    more := TurnsRouted(x.snap.(clock := start), ts, y.snap, n, false, y.tables, os, known);
    forall o | o in more
      ensures Source(o, x, Timer, y)
    {
      assert Owed(o, y.snap.discarded, y.tables);
    }
  }

  lemma {:induction false} EventRouted(x: World, e: Event, y: World, ttl: int, os: set<Outgoing>, known: set<A.ArpEntry>)
    returns (more: set<Outgoing>)
    requires Happened(x, e, y, ttl) && Routed(x.snap.state, os, known)
    requires Within(x.tables.cache, known) && Within(y.tables.cache, known)
    ensures Routed(y.snap.state, os + more, known) && forall o :: o in more ==> Source(o, x, e, y)
  {
    hide Routed, Send, Delivered, Round;
    more := {};
    assert os + more == os;
    match e {
      case Submit(o) =>
        more := {o};
        SendRouted(x.snap.state, o, x.tables.cache, y.snap.clock, os, known);
      case Reply(ip, mac) =>
        var at: int :| Replied(x, y, ip, mac, at);
        var c := A.ArpEntry(ip, mac, at, false);
        InUpdated(x.tables.cache, c);
        DeliveredRouted(x.snap.state, c, os, known);
      case Timer => more := TimerRouted(x, y, ttl, os, known);
      case _ =>
    }
  }

  lemma {:induction false} InUpdated(es: seq<A.ArpEntry>, e: A.ArpEntry)
    ensures e in A.Updated(es, e)
  {
    var u, k := A.Updated(es, e), A.Find(es, e.ip);
    assert u[k] == e;
  }

  /**
   Over any run: what is queued or on the wire at the end belongs to packets handed over,
   bound for the next hops they were handed over for; and what was handed over is what was
   there at first, what events submitted, and errors that answer discarded packets.
   */
  lemma {:induction false} RunRouted(ws: seq<World>, es: seq<Event>, ttl: int, os: set<Outgoing>) returns (all: set<Outgoing>)
    requires Runs(ws, es, ttl) && Routed(ws[0].snap.state, os, Known(ws[..1]))
    ensures Routed(ws[|es|].snap.state, all, Known(ws)) && os <= all
    ensures forall o :: o in all ==> o in os || exists i :: 0 <= i < |es| && Source(o, ws[i], es[i], ws[i + 1])
    decreases |es|
  {
    hide Routed, Happened, Source, Known;
    if es == [] {
      assert ws[..1] == ws;
      all := os;
    } else {
      var n := |es| - 1;
      assert Happened(ws[n], es[n], ws[n + 1], ttl);
      forall i | 0 <= i < n
        ensures Happened(ws[..n + 1][i], es[..n][i], ws[..n + 1][i + 1], ttl)
      {
        assert Happened(ws[i], es[i], ws[i + 1], ttl);
      }
      assert ws[..n + 1][..1] == ws[..1];
      var first := RunRouted(ws[..n + 1], es[..n], ttl, os);
      KnownMore(ws, n);
      RoutedMore(ws[n].snap.state, first, Known(ws[..n + 1]), first, Known(ws));
      var last := EventRouted(ws[n], es[n], ws[n + 1], ttl, first, Known(ws));
      all := first + last;
      forall o | o in all
        ensures o in os || exists i :: 0 <= i < |es| && Source(o, ws[i], es[i], ws[i + 1])
      {
        if o in last {
          assert Source(o, ws[n], es[n], ws[n + 1]);
        } else if o !in os {
          var i :| 0 <= i < n && Source(o, ws[..n + 1][i], es[..n][i], ws[..n + 1][i + 1]);
          assert Source(o, ws[i], es[i], ws[i + 1]);
        }
      }
    }
  }

  lemma {:induction false} KnownMore(ws: seq<World>, n: nat)
    requires n + 1 < |ws|
    ensures Known(ws[..n + 1]) <= Known(ws)
    ensures Within(ws[n].tables.cache, Known(ws)) && Within(ws[n + 1].tables.cache, Known(ws))
  {
    assert ws[n] in ws && ws[n + 1] in ws;
  }

  /** Where next hops are reached through one interface each, every packet leaves by its own. */
  lemma {:induction false} LeavesByItsOwn(s: State, os: set<Outgoing>, known: set<A.ArpEntry>, f: Frame)
    requires Routed(s, os, known) && f in s.wire
    requires forall o, p :: o in os && p in os && o.nextHop == p.nextHop ==> o.iface == p.iface
    ensures exists o :: o in os && o.packet == f.packet && o.iface == f.iface
              && exists c :: c in known && c.ip == o.nextHop && c.mac == f.mac
  {
    assert FrameRouted(f, os, known);
    var c :| c in known && c.mac == f.mac && Bound(f.packet, c.ip, os) && Named(c.ip, f.iface, os);
    var o :| o in os && o.packet == f.packet && o.nextHop == c.ip;
    var p :| p in os && p.nextHop == c.ip && p.iface == f.iface;
    assert o.iface == p.iface;
  }
}
