/**
 One pass of the timer over the ARP queue, as values: what a visit does to the entry it
 looks at, what that leaves true of the queue, and what the pass has done to every entry.
 */
module ArpPass {
  import opened Sequences
  import opened Words
  import A = ArpCache
  import opened ArpQueue

  const MAX_REQUESTS := 5

  /** Requests of one entry: at most five, more than a second apart, the last one remembered. */
  predicate Paced(e: Entry, clock: int) {
    && 1 <= e.requests == |e.sentAt| <= MAX_REQUESTS
    && e.sentAt[|e.sentAt| - 1] == e.lastReqTime <= clock
    && forall i :: 0 <= i < |e.sentAt| - 1 ==> e.sentAt[i + 1] - e.sentAt[i] > 1
  }

  predicate AllPaced(q: Queue, clock: int) {
    forall i :: 0 <= i < |q| ==> Paced(q[i], clock)
  }

  /** One entry per next hop, requests recorded and paced, and every packet handed over accounted for. */
  ghost predicate Sound(x: Snapshot) {
    && UniqueHops(x.state.queue)
    && AllPaced(x.state.queue, x.clock)
    && Recorded(x.state)
    && x.given == Held(x.state) + x.discarded
  }

  /** Another request is sent for entry e. */
  function Repeat(e: Entry, now: int): Entry {
    e.(lastReqTime := now, requests := e.requests + 1, sentAt := e.sentAt + [now])
  }

  /** A visit to entry n from x to y, `reading` being the time at which its age was checked. */
  ghost predicate Visit(x: Snapshot, y: Snapshot, n: nat, reading: int, nows: seq<int>, t: Tables) {
    && n < |x.state.queue| && x.clock <= reading <= y.clock
    && var e := x.state.queue[n];
    if reading - e.lastReqTime <= 1 then
      y == x.(clock := y.clock)
    else if e.requests < MAX_REQUESTS then
      y.given == x.given && y.discarded == x.discarded
      && y.state == x.state.(queue := x.state.queue[n := Repeat(e, y.clock)],
                             arpWire := x.state.arpWire + [Request(e.nextHop, e.iface, y.clock)])
    else
      exists m: Snapshot :: m.clock == y.clock && Drained(x.(clock := reading), m, n, nows, t) && GaveUp(m, y, n)
  }

  /** The emptied entry n is unlinked. */
  predicate GaveUp(m: Snapshot, y: Snapshot, n: nat) {
    n < |m.state.queue| && y == m.(state := m.state.(queue := Without(m.state.queue, n)))
  }

  // ----- a visit keeps the queue sound

  lemma {:induction false} SendAllPaced(s: State, os: seq<Outgoing>, cache: seq<A.ArpEntry>, nows: seq<int>,
      before: int, clock: int)
    requires |os| == |nows| && before <= clock && AllPaced(s.queue, before)
    requires forall i :: 0 <= i < |nows| ==> before <= nows[i] <= clock
    ensures AllPaced(SendAll(s, os, cache, nows).queue, clock)
    decreases |os|
  {
    if os != [] {
      var n := |os| - 1;
      SendAllPaced(s, os[..n], cache, nows[..n], before, clock);
      SendPaced(SendAll(s, os[..n], cache, nows[..n]), os[n], cache, nows[n], clock);
    }
  }

  lemma {:induction false} SendPaced(s: State, o: Outgoing, cache: seq<A.ArpEntry>, now: int, clock: int)
    requires now <= clock && AllPaced(s.queue, clock)
    ensures AllPaced(Send(s, o, cache, now).queue, clock)
  {
  }

  /** Draining an entry loses no packet: what it gives up is counted as discarded. */
  lemma {:induction false} DrainConserves(x: Snapshot, m: Snapshot, y: Snapshot, n: nat, nows: seq<int>, t: Tables)
    requires n < |x.state.queue| && Drained(x, m, n, nows, t) && GaveUp(m, y, n)
    requires x.given == Held(x.state) + x.discarded
    ensures y.given == Held(y.state) + y.discarded
  {
    var os := Errors(x.state.queue[n].packets, t.routes, t.local);
    var s := SendAll(x.state, os, t.cache, nows);
    SendAllConserves(x.state, os, t.cache, nows);
    QueuedRemove(s.queue, n);
    assert y.state.queue == Without(s.queue, n);
    var lost, w := multiset(s.queue[n].packets), multiset(OnWire(s.wire));
    calc {
      y.given;
      (Held(x.state) + x.discarded) + multiset(PacketsOf(os));
      Held(s) + x.discarded;
      (Queued(Without(s.queue, n)) + lost + w) + x.discarded;
      (Queued(Without(s.queue, n)) + w) + (x.discarded + lost);
    }
  }

  lemma {:induction false} RepeatKeepsSound(x: Snapshot, y: Snapshot, n: nat, reading: int, nows: seq<int>, t: Tables)
    requires Sound(x) && Visit(x, y, n, reading, nows, t)
    requires reading - x.state.queue[n].lastReqTime > 1 && x.state.queue[n].requests < MAX_REQUESTS
    ensures Sound(y)
  {
    hide UniqueHops, AllPaced, Recorded, Queued, OnWire, Drained;
    var q := x.state.queue;
    var f := Repeat(q[n], y.clock);
    SamePackets(q, n, f);
    RepeatKeepsQueue(q, n, x.clock, y.clock);
    RepeatRecorded(x.state, n, y.clock);
  }

  lemma {:induction false} RepeatKeepsQueue(q: Queue, n: nat, before: int, now: int)
    requires n < |q| && UniqueHops(q) && AllPaced(q, before) && before <= now
    requires now - q[n].lastReqTime > 1 && q[n].requests < MAX_REQUESTS
    ensures UniqueHops(q[n := Repeat(q[n], now)]) && AllPaced(q[n := Repeat(q[n], now)], now)
  {
    assert Paced(q[n], before);
    RepeatPaced(q[n], before, now);
    forall i | 0 <= i < |q| && i != n
      ensures Paced(q[i], now)
    {
      PacedLater(q[i], before, now);
    }
    hide Paced;
  }

  /** A repeated request is recorded with its entry, and belongs to no other. */
  lemma {:induction false} RepeatRecorded(s: State, n: nat, now: int)
    requires n < |s.queue| && UniqueHops(s.queue) && Recorded(s)
    ensures var e := s.queue[n];
            Recorded(s.(queue := s.queue[n := Repeat(e, now)], arpWire := s.arpWire + [Request(e.nextHop, e.iface, now)]))
  {
    var e := s.queue[n];
    forall i | 0 <= i < |s.queue|
      ensures var f := if i == n then Repeat(e, now) else s.queue[i];
              EndsWith(TimesFor(s.arpWire + [Request(e.nextHop, e.iface, now)], f.nextHop), f.sentAt)
    {
      TimesSnoc(s.arpWire, Request(e.nextHop, e.iface, now), s.queue[i].nextHop);
    }
  }

  lemma {:induction false} RepeatPaced(e: Entry, before: int, now: int)
    requires Paced(e, before) && before <= now && now - e.lastReqTime > 1 && e.requests < MAX_REQUESTS
    ensures Paced(Repeat(e, now), now)
  {
  }

  lemma {:induction false} PacedLater(e: Entry, before: int, now: int)
    requires Paced(e, before) && before <= now
    ensures Paced(e, now)
  {
  }

  lemma {:induction false} GiveUpKeepsSound(x: Snapshot, m: Snapshot, y: Snapshot, n: nat, nows: seq<int>, t: Tables)
    requires Sound(x) && n < |x.state.queue| && Drained(x, m, n, nows, t) && GaveUp(m, y, n)
    ensures Sound(y)
  {
    DrainConserves(x, m, y, n, nows, t);
    var os := Errors(x.state.queue[n].packets, t.routes, t.local);
    SendAllUnique(x.state, os, t.cache, nows);
    SendAllPaced(x.state, os, t.cache, nows, x.clock, m.clock);
    SendAllRecorded(x.state, os, t.cache, nows);
    var s := SendAll(x.state, os, t.cache, nows);
    var q := s.queue;
    assert y.state.queue == Without(q, n);
    WithoutKeeps(q, n, m.clock);
    WithoutRecorded(s, n);
    assert y.state == s.(queue := Without(q, n));
    hide SendAll, Recorded, Errors, Queued, UniqueHops, AllPaced, Without, OnWire;
  }

  lemma {:induction false} WithoutKeeps(q: Queue, n: nat, clock: int)
    requires n < |q| && UniqueHops(q) && AllPaced(q, clock)
    ensures UniqueHops(Without(q, n)) && AllPaced(Without(q, n), clock)
  {
    var r := Without(q, n);
    assert forall i :: 0 <= i < |r| ==> r[i] == q[if i < n then i else i + 1];
  }

  lemma {:induction false} WithoutRecorded(s: State, n: nat)
    requires n < |s.queue| && Recorded(s)
    ensures Recorded(s.(queue := Without(s.queue, n)))
  {
    var r := Without(s.queue, n);
    assert forall i :: 0 <= i < |r| ==> r[i] == s.queue[if i < n then i else i + 1];
  }

  lemma {:induction false} VisitKeepsSound(x: Snapshot, y: Snapshot, n: nat, reading: int, nows: seq<int>, t: Tables)
    requires Sound(x) && Visit(x, y, n, reading, nows, t)
    ensures Sound(y)
  {
    hide UniqueHops, Held, Drained, Recorded;
    var e := x.state.queue[n];
    if reading - e.lastReqTime > 1 {
      if e.requests < MAX_REQUESTS {
        RepeatKeepsSound(x, y, n, reading, nows, t);
      } else {
        var z := x.(clock := reading);
        var m: Snapshot :| m.clock == y.clock && Drained(z, m, n, nows, t) && GaveUp(m, y, n);
        GiveUpKeepsSound(z, m, y, n, nows, t);
      }
    }
  }

  lemma {:induction false} SamePackets(q: Queue, n: nat, e: Entry)
    requires n < |q| && e.packets == q[n].packets
    ensures Queued(q[n := e]) == Queued(q)
  {
    QueuedReplace(q, n, e);
    Cancel(Queued(q[n := e]), multiset(e.packets), Queued(q), multiset{});
  }

  lemma {:induction false} SendKeepsSound(x: Snapshot, o: Outgoing, cache: seq<A.ArpEntry>, now: int)
    requires Sound(x) && x.clock <= now
    ensures Sound(Snapshot(Send(x.state, o, cache, now), x.given + multiset{o.packet}, x.discarded, now))
  {
    SendConserves(x.state, o, cache, now);
    SendUnique(x.state, o, cache, now);
    forall i | 0 <= i < |x.state.queue|
      ensures Paced(x.state.queue[i], now)
    {
      PacedLater(x.state.queue[i], x.clock, now);
    }
    SendPaced(x.state, o, cache, now, now);
    SendRecorded(x.state, o, cache, now);
    hide Send, UniqueHops, AllPaced, Held, Recorded;
  }

  lemma {:induction false} DeliveredKeepsSound(x: Snapshot, ip: Uint32, mac: A.Mac, now: int)
    requires Sound(x) && x.clock <= now
    ensures Sound(x.(state := Delivered(x.state, ip, mac), clock := now))
  {
    var q := x.state.queue;
    DeliveredConserves(x.state, ip, mac);
    DeliveredAnswers(x.state, ip, mac);
    forall e | e in q
      ensures Paced(e, now)
    {
      var i :| 0 <= i < |q| && q[i] == e;
      PacedLater(q[i], x.clock, now);
    }
    var r := Delivered(x.state, ip, mac).queue;
    assert forall i :: 0 <= i < |r| ==> r[i] in q;
    DeliveredRecorded(x.state, ip, mac);
    hide Held, UniqueHops, Delivered, Recorded;
  }

  lemma {:induction false} DeliveredRecorded(s: State, ip: Uint32, mac: A.Mac)
    requires Recorded(s)
    ensures Recorded(Delivered(s, ip, mac)) && Sent(s, Delivered(s, ip, mac))
  {
    var k := FindHop(s.queue, ip);
    if k < |s.queue| {
      WithoutRecorded(s, k);
    }
  }

  lemma {:induction false} LaterSound(x: Snapshot, now: int)
    requires Sound(x) && x.clock <= now
    ensures Sound(x.(clock := now))
  {
    forall i | 0 <= i < |x.state.queue|
      ensures Paced(x.state.queue[i], now)
    {
      PacedLater(x.state.queue[i], x.clock, now);
    }
    hide Held, UniqueHops, Recorded;
  }

  // ----- what the whole pass does to each entry

  /** f continues e with one more request, sent at or after `since`. */
  predicate Repeated(e: Entry, f: Entry, since: int) {
    && f.nextHop == e.nextHop && f.iface == e.iface && f.requests == e.requests + 1
    && |f.sentAt| == |e.sentAt| + 1 && e.sentAt <= f.sentAt && f.sentAt[|e.sentAt|] >= since
    && e.packets <= f.packets
  }

  /** Whatever the queue holds for e's next hop was created at or after `since`. */
  predicate Gone(e: Entry, q: Queue, since: int) {
    forall i :: 0 <= i < |q| && q[i].nextHop == e.nextHop ==> q[i].sentAt != [] && q[i].sentAt[0] >= since
  }

  /**
   Entry e has had its turn, and the first n entries of q are what is left of such:
   if it was due at the start it was repeated or given up, and if it is not even due
   now it has only gained packets.
   */
  ghost predicate Done(e: Entry, q: Queue, n: nat, since: int, now: int) {
    && (since - e.lastReqTime > 1 && e.requests >= MAX_REQUESTS ==> Gone(e, q, since))
    && (since - e.lastReqTime > 1 && e.requests < MAX_REQUESTS ==>
          exists i :: 0 <= i < n <= |q| && Repeated(e, q[i], since))
    && (now - e.lastReqTime <= 1 ==> exists i :: 0 <= i < n <= |q| && Grown(e, q[i]))
  }

  /** Invariant of the pass: k entries of the queue q0 have been visited, n of them are left. */
  ghost predicate Passing(q0: Queue, q: Queue, k: nat, n: nat, since: int, now: int) {
    && k <= |q0| && n + (|q0| - k) <= |q|
    && (forall i :: 0 <= i < k ==> Done(q0[i], q, n, since, now))
    && (forall i :: k <= i < |q0| ==> Grown(q0[i], q[n + i - k]))
  }

  /** Queue effect of a visit that does not give up on entry n. */
  lemma {:induction false} DoneStays(e: Entry, q: Queue, r: Queue, n: nat, since: int, now: int, later: int)
    requires Done(e, q, n, since, now) && now <= later && n < |q| && since <= later
    requires |r| == |q| && forall i :: 0 <= i < |q| && i != n ==> r[i] == q[i]
    requires r[n] == q[n] || (r[n] == Repeat(q[n], later) && q[n].sentAt != [])
    ensures Done(e, r, n + 1, since, later)
  {
    if since - e.lastReqTime > 1 && e.requests < MAX_REQUESTS {
      var i :| 0 <= i < n && Repeated(e, q[i], since);
      assert Repeated(e, r[i], since);
    }
    if later - e.lastReqTime <= 1 {
      var i :| 0 <= i < n && Grown(e, q[i]);
      assert Grown(e, r[i]);
    }
  }

  /** Entry n itself, when it has not been given up. */
  lemma {:induction false} DoneNow(e: Entry, q: Queue, r: Queue, n: nat, since: int, reading: int, later: int)
    requires n < |q| == |r| && Grown(e, q[n]) && since <= reading <= later
    requires if reading - e.lastReqTime <= 1 then r[n] == q[n]
             else e.requests < MAX_REQUESTS && r[n] == Repeat(q[n], later)
    ensures Done(e, r, n + 1, since, later)
  {
    if reading - e.lastReqTime <= 1 {
      assert Grown(e, r[n]);
    } else {
      assert Repeated(e, r[n], since);
    }
  }

  /** Queue effect of giving up on entry n: the rest grows, then n is unlinked. */
  lemma {:induction false} DoneAfterGiveUp(e: Entry, q: Queue, g: Queue, n: nat, since: int, now: int, later: int)
    requires Done(e, q, n, since, now) && now <= later && n < |q| && QueueGrown(q, g, since)
    ensures Done(e, Without(g, n), n, since, later)
  {
    var r := Without(g, n);
    forall i | 0 <= i < |r| && r[i].nextHop == e.nextHop && Gone(e, q, since)
      ensures r[i].sentAt != [] && r[i].sentAt[0] >= since
    {
      var j := if i < n then i else i + 1;
      assert r[i] == g[j];
      if j < |q| {
        assert Grown(q[j], g[j]);
      } else {
        assert IsNew(g[j], since);
      }
    }
    if since - e.lastReqTime > 1 && e.requests < MAX_REQUESTS {
      var i :| 0 <= i < n && Repeated(e, q[i], since);
      assert Grown(q[i], g[i]) && Repeated(e, r[i], since);
    }
    if later - e.lastReqTime <= 1 {
      var i :| 0 <= i < n && Grown(e, q[i]);
      assert Grown(q[i], g[i]) && Grown(e, r[i]);
    }
  }

  /** The entry that was given up: only entries made since can have its next hop. */
  lemma {:induction false} GivenUpIsGone(e: Entry, q: Queue, g: Queue, n: nat, since: int, reading: int, later: int)
    requires n < |q| && Grown(e, q[n]) && e.requests >= MAX_REQUESTS && UniqueHops(q)
    requires since <= reading <= later && reading - e.lastReqTime > 1
    requires QueueGrown(q, g, since)
    ensures Done(e, Without(g, n), n, since, later)
  {
    var r := Without(g, n);
    forall i | 0 <= i < |r| && r[i].nextHop == e.nextHop
      ensures r[i].sentAt != [] && r[i].sentAt[0] >= since
    {
      var j := if i < n then i else i + 1;
      assert r[i] == g[j] && j != n;
      assert j < |q| ==> Grown(q[j], g[j]);
      assert j >= |q| ==> IsNew(g[j], since);
    }
  }

  lemma {:induction false} VisitQueueGrown(x: Snapshot, m: Snapshot, n: nat, nows: seq<int>, t: Tables, since: int)
    requires n < |x.state.queue| && Drained(x, m, n, nows, t) && since <= x.clock
    ensures exists g: Queue :: QueueGrown(x.state.queue, g, since) && |g| == |m.state.queue|
              && Without(g, n) == Without(m.state.queue, n)
  {
    var os := Errors(x.state.queue[n].packets, t.routes, t.local);
    SendAllGrows(x.state, os, t.cache, nows, since);
    var g := SendAll(x.state, os, t.cache, nows).queue;
    assert Without(g, n) == Without(m.state.queue, n);
  }

  lemma {:induction false} GiveUpPasses(q0: Queue, q: Queue, g: Queue, k: nat, n: nat, since: int, now: int,
      reading: int, later: int)
    requires Passing(q0, q, k, n, since, now) && n < |q| && UniqueHops(q) && QueueGrown(q, g, since)
    requires since <= now <= reading <= later
    requires reading - q[n].lastReqTime > 1 && q[n].requests >= MAX_REQUESTS
    ensures Passing(q0, Without(g, n), if k < |q0| then k + 1 else k, n, since, later)
  {
    var r := Without(g, n);
    forall i | 0 <= i < k
      ensures Done(q0[i], r, n, since, later)
    {
      DoneAfterGiveUp(q0[i], q, g, n, since, now, later);
    }
    if k < |q0| {
      assert Grown(q0[k], q[n + k - k]);
      GivenUpIsGone(q0[k], q, g, n, since, reading, later);
      forall i | k + 1 <= i < |q0|
        ensures Grown(q0[i], r[n + i - (k + 1)])
      {
        assert r[n + i - (k + 1)] == g[n + i - k];
        assert Grown(q0[i], q[n + i - k]) && Grown(q[n + i - k], g[n + i - k]);
      }
    }
  }

  lemma {:induction false} StayPasses(q0: Queue, q: Queue, r: Queue, k: nat, n: nat, since: int, now: int,
      reading: int, later: int)
    requires Passing(q0, q, k, n, since, now) && n < |q| == |r| && since <= now <= reading <= later
    requires forall i :: 0 <= i < |q| && i != n ==> r[i] == q[i]
    requires q[n].sentAt != []
    requires if reading - q[n].lastReqTime <= 1 then r[n] == q[n]
             else q[n].requests < MAX_REQUESTS && r[n] == Repeat(q[n], later)
    ensures Passing(q0, r, if k < |q0| then k + 1 else k, n + 1, since, later)
  {
    forall i | 0 <= i < k
      ensures Done(q0[i], r, n + 1, since, later)
    {
      DoneStays(q0[i], q, r, n, since, now, later);
    }
    if k < |q0| {
      assert Grown(q0[k], q[n + k - k]);
      DoneNow(q0[k], q, r, n, since, reading, later);
      forall i | k + 1 <= i < |q0|
        ensures Grown(q0[i], r[n + 1 + i - (k + 1)])
      {
        assert Grown(q0[i], q[n + i - k]);
      }
    }
  }

  /** A visit moves the pass on by one entry. */
  lemma {:induction false} VisitPasses(q0: Queue, x: Snapshot, y: Snapshot, k: nat, n: nat, since: int,
      reading: int, nows: seq<int>, t: Tables)
    requires Sound(x) && Visit(x, y, n, reading, nows, t) && since <= x.clock
    requires Passing(q0, x.state.queue, k, n, since, x.clock)
    ensures var e := x.state.queue[n];
            var gaveUp := reading - e.lastReqTime > 1 && e.requests >= MAX_REQUESTS;
            Passing(q0, y.state.queue, if k < |q0| then k + 1 else k, if gaveUp then n else n + 1, since, y.clock)
  {
    var q, r := x.state.queue, y.state.queue;
    var e := q[n];
    assert Paced(e, x.clock);
    hide Passing, UniqueHops, Drained, QueueGrown, Held, AllPaced;
    if reading - e.lastReqTime > 1 && e.requests >= MAX_REQUESTS {
      var z := x.(clock := reading);
      var m: Snapshot :| m.clock == y.clock && Drained(z, m, n, nows, t) && GaveUp(m, y, n);
      VisitQueueGrown(z, m, n, nows, t, since);
      var g: Queue :| QueueGrown(q, g, since) && |g| == |m.state.queue| && Without(g, n) == Without(m.state.queue, n);
      GiveUpPasses(q0, q, g, k, n, since, x.clock, reading, y.clock);
    } else {
      StayPasses(q0, q, r, k, n, since, x.clock, reading, y.clock);
    }
  }

  // ----- termination of the pass

  /** Entries at or after n that a visit may give up. */
  function Doomed(q: Queue, n: nat): nat
    decreases |q| - n
  {
    if n >= |q| then 0 else (if q[n].requests >= MAX_REQUESTS then 1 else 0) + Doomed(q, n + 1)
  }

  /** Growing the queue dooms no further entry. */
  lemma {:induction false} DoomedGrown(q: Queue, g: Queue, n: nat, since: int)
    requires QueueGrown(q, g, since)
    ensures Doomed(g, n) == Doomed(q, n)
    decreases |g| - n
  {
    if n < |g| {
      DoomedGrown(q, g, n + 1, since);
      if n < |q| {
        assert Grown(q[n], g[n]);
      } else {
        assert IsNew(g[n], since);
      }
    }
  }

  lemma {:induction false} DoomedSuffix(q: Queue, r: Queue, n: nat, m: nat)
    requires n <= |q| && m <= |r| && q[n..] == r[m..]
    ensures Doomed(q, n) == Doomed(r, m)
    decreases |q| - n
  {
    if n < |q| {
      assert q[n] == q[n..][0] && r[m] == r[m..][0];
      assert q[n + 1..] == q[n..][1..] && r[m + 1..] == r[m..][1..];
      DoomedSuffix(q, r, n + 1, m + 1);
    }
  }

  /** A visit either uses up a doomed entry or moves on past one entry. */
  lemma {:induction false} VisitEnds(x: Snapshot, y: Snapshot, n: nat, reading: int, nows: seq<int>, t: Tables)
    requires Visit(x, y, n, reading, nows, t)
    ensures var q, r, e := x.state.queue, y.state.queue, x.state.queue[n];
            if reading - e.lastReqTime > 1 && e.requests >= MAX_REQUESTS
            then |r| >= |q| - 1 && Doomed(r, n) < Doomed(q, n)
            else |r| == |q| && Doomed(r, n + 1) <= Doomed(q, n)
  {
    var q, r, e := x.state.queue, y.state.queue, x.state.queue[n];
    if reading - e.lastReqTime > 1 && e.requests >= MAX_REQUESTS {
      var m: Snapshot :| m.clock == y.clock && Drained(x.(clock := reading), m, n, nows, t) && GaveUp(m, y, n);
      VisitQueueGrown(x.(clock := reading), m, n, nows, t, reading);
      var g: Queue :| QueueGrown(q, g, reading) && |g| == |m.state.queue| && Without(g, n) == Without(m.state.queue, n);
      assert r[n..] == g[n + 1..];
      DoomedSuffix(r, g, n, n + 1);
      DoomedGrown(q, g, n + 1, reading);
    } else {
      assert q[n + 1..] == r[n + 1..];
      DoomedSuffix(q, r, n + 1, n + 1);
    }
  }

  // ----- what a pass leaves on the wire and in the accounts

  /** Nothing sent is taken back; the packets `lost` were discarded, and exactly the errors they owe were made. */
  ghost predicate Accounts(x: Snapshot, y: Snapshot, lost: seq<Packet>, t: Tables) {
    && Sent(x.state, y.state)
    && y.discarded == x.discarded + multiset(lost)
    && y.given == x.given + multiset(PacketsOf(Errors(lost, t.routes, t.local)))
  }

  lemma {:induction false} AccountsNothing(x: Snapshot, y: Snapshot, t: Tables)
    requires Sent(x.state, y.state) && y.discarded == x.discarded && y.given == x.given
    ensures Accounts(x, y, [], t)
  {
    assert PacketsOf(Errors([], t.routes, t.local)) == [];
  }

  lemma {:induction false} AccountsJoin(x: Snapshot, y: Snapshot, z: Snapshot, ps: seq<Packet>, qs: seq<Packet>, t: Tables)
    requires Accounts(x, y, ps, t) && Accounts(y, z, qs, t)
    ensures Accounts(x, z, ps + qs, t)
  {
    hide Errors, Sent;
    var a, b := Errors(ps, t.routes, t.local), Errors(qs, t.routes, t.local);
    ErrorsJoin(ps, qs, t.routes, t.local);
    assert PacketsOf(a + b) == PacketsOf(a) + PacketsOf(b);
    hide PacketsOf;
    SentJoin(x.state, y.state, z.state);
    Regroup(x.given, multiset(PacketsOf(a)), multiset(PacketsOf(b)));
    Regroup(x.discarded, multiset(ps), multiset(qs));
  }

  lemma {:induction false} SentJoin(s: State, t: State, u: State)
    requires Sent(s, t) && Sent(t, u)
    ensures Sent(s, u)
  {
  }

  /** What an entry holds when it is given up owes the errors it owed at the start. */
  lemma {:induction false} LostOwes(s: State, n: nat, cache: seq<A.ArpEntry>, nows: seq<int>,
      routes: map<Uint32, Hop>, local: set<Uint32>)
    requires n < |s.queue| && |nows| == |Errors(s.queue[n].packets, routes, local)|
    ensures var os := Errors(s.queue[n].packets, routes, local);
            var q := SendAll(s, os, cache, nows).queue;
            n < |q| && Errors(q[n].packets, routes, local) == os
  {
    hide *;
    var ps := s.queue[n].packets;
    var os := Errors(ps, routes, local);
    ErrorsAreErrors(ps, routes, local);
    GainedFrom(s, os, cache, nows, n);
    var qs := SendAll(s, os, cache, nows).queue[n].packets;
    assert qs == ps + qs[|ps|..];
    ErrorsJoin(ps, qs[|ps|..], routes, local);
    ErrorsCauseNone(qs[|ps|..], routes, local);
  }

  lemma {:induction false} GiveUpAccounts(x: Snapshot, m: Snapshot, y: Snapshot, n: nat, nows: seq<int>, t: Tables)
    returns (lost: seq<Packet>)
    requires n < |x.state.queue| && Drained(x, m, n, nows, t) && GaveUp(m, y, n) && Recorded(x.state)
    ensures Accounts(x, y, lost, t)
  {
    var os := Errors(x.state.queue[n].packets, t.routes, t.local);
    LostOwes(x.state, n, t.cache, nows, t.routes, t.local);
    SendAllRecorded(x.state, os, t.cache, nows);
    lost := SendAll(x.state, os, t.cache, nows).queue[n].packets;
    hide SendAll, Errors, PacketsOf, Recorded;
  }

  lemma {:induction false} VisitAccounts(x: Snapshot, y: Snapshot, n: nat, reading: int, nows: seq<int>, t: Tables)
    returns (lost: seq<Packet>)
    requires Visit(x, y, n, reading, nows, t) && Recorded(x.state)
    ensures Accounts(x, y, lost, t)
  {
    hide Drained, Recorded, Accounts;
    var e := x.state.queue[n];
    if reading - e.lastReqTime > 1 && e.requests >= MAX_REQUESTS {
      var z := x.(clock := reading);
      var m: Snapshot :| m.clock == y.clock && Drained(z, m, n, nows, t) && GaveUp(m, y, n);
      lost := GiveUpAccounts(z, m, y, n, nows, t);
      SameAccounts(z, x, y, lost, t);
    } else {
      AccountsNothing(x, y, t);
      lost := [];
    }
  }

  /** Accounts do not depend on the clock. */
  lemma {:induction false} SameAccounts(z: Snapshot, x: Snapshot, y: Snapshot, lost: seq<Packet>, t: Tables)
    requires Accounts(z, y, lost, t) && x == z.(clock := x.clock)
    ensures Accounts(x, y, lost, t)
  {
  }

  // ----- a pass is a sequence of turns

  /** A visit of the pass: before it entry n was next. */
  datatype Turn = Turn(before: Snapshot, n: nat, reading: int, nows: seq<int>, after: Snapshot)

  predicate GivesUp(q: Queue, n: nat, reading: int)
    requires n < |q|
  {
    reading - q[n].lastReqTime > 1 && q[n].requests >= MAX_REQUESTS
  }

  /**
   The pass over x has taken these turns and come to y, where entry n is next if there is
   more. The successor of an entry is chosen before the entry is visited.
   */
  ghost predicate Turns(x: Snapshot, ts: seq<Turn>, y: Snapshot, n: nat, more: bool, t: Tables)
    decreases |ts|
  {
    if ts == [] then y == x && n == 0 && more == (x.state.queue != [])
    else
      var l := ts[|ts| - 1];
      var q := l.before.state.queue;
      && l.n < |q| && Turns(x, ts[..|ts| - 1], l.before, l.n, true, t)
      && Visit(l.before, l.after, l.n, l.reading, l.nows, t) && y == l.after
      && n == (if GivesUp(q, l.n, l.reading) then l.n else l.n + 1)
      && more == (l.n + 1 < |q|)
  }

  lemma {:induction false} TurnsSnoc(x: Snapshot, ts: seq<Turn>, l: Turn, t: Tables)
    requires l.n < |l.before.state.queue| && Turns(x, ts, l.before, l.n, true, t)
    requires Visit(l.before, l.after, l.n, l.reading, l.nows, t)
    ensures Turns(x, ts + [l], l.after, if GivesUp(l.before.state.queue, l.n, l.reading) then l.n else l.n + 1,
                  l.n + 1 < |l.before.state.queue|, t)
  {
    assert (ts + [l])[..|ts|] == ts;
    hide Visit;
  }

  lemma {:induction false} VisitLater(x: Snapshot, y: Snapshot, n: nat, reading: int, nows: seq<int>, t: Tables)
    requires Visit(x, y, n, reading, nows, t)
    ensures x.clock <= y.clock
  {
  }

  /** A pass keeps the queue sound. */
  lemma {:induction false} TurnsKeepSound(x: Snapshot, ts: seq<Turn>, y: Snapshot, n: nat, more: bool, t: Tables)
    requires Sound(x) && Turns(x, ts, y, n, more, t)
    ensures Sound(y) && x.clock <= y.clock
    decreases |ts|
  {
    if ts != [] {
      var l := ts[|ts| - 1];
      TurnsKeepSound(x, ts[..|ts| - 1], l.before, l.n, true, t);
      hide Sound, Visit;
      VisitKeepsSound(l.before, y, l.n, l.reading, l.nows, t);
      VisitLater(l.before, y, l.n, l.reading, l.nows, t);
    }
  }

  lemma {:induction false} SoundRecorded(x: Snapshot)
    requires Sound(x)
    ensures Recorded(x.state)
  {
  }

  /** What the accounts say of the errors themselves. */
  lemma {:induction false} AccountsOwed(x: Snapshot, y: Snapshot, lost: seq<Packet>, t: Tables)
    returns (os: seq<Outgoing>, at: seq<nat>)
    requires Accounts(x, y, lost, t)
    ensures ErrorsOwed(os, lost, at, t.routes, t.local)
    ensures y.given == x.given + multiset(PacketsOf(os)) && y.discarded == x.discarded + multiset(lost)
  {
    os := Errors(lost, t.routes, t.local);
    at := ErrorsAreOwed(lost, t.routes, t.local);
  }

  /**
   A pass takes nothing back, and makes exactly the errors owed for what it discards: each
   goes back to its packet's source by the way the routes give, and quotes the packet.
   */
  lemma {:induction false} TurnsAccount(x: Snapshot, ts: seq<Turn>, y: Snapshot, n: nat, more: bool, t: Tables)
    returns (lost: seq<Packet>)
    requires Sound(x) && Turns(x, ts, y, n, more, t)
    ensures Accounts(x, y, lost, t)
    ensures y.discarded == x.discarded + multiset(lost)
    ensures exists os, at :: ErrorsOwed(os, lost, at, t.routes, t.local) && y.given == x.given + multiset(PacketsOf(os))
    decreases |ts|
  {
    if ts == [] {
      AccountsNothing(x, y, t);
      lost := [];
    } else {
      var l := ts[|ts| - 1];
      TurnsKeepSound(x, ts[..|ts| - 1], l.before, l.n, true, t);
      hide Sound, Visit, Accounts;
      SoundRecorded(l.before);
      var ps := TurnsAccount(x, ts[..|ts| - 1], l.before, l.n, true, t);
      var qs := VisitAccounts(l.before, y, l.n, l.reading, l.nows, t);
      AccountsJoin(x, l.before, y, ps, qs, t);
      lost := ps + qs;
    }
    var os, at := AccountsOwed(x, y, lost, t);
    hide ErrorsOwed;
  }

  lemma {:induction false} PassStarts(q0: Queue, since: int)
    ensures Passing(q0, q0, 0, 0, since, since)
  {
  }

  /** The queue is not at its end while old entries remain to be visited. */
  lemma {:induction false} PassReaches(q0: Queue, q: Queue, k: nat, n: nat, since: int, now: int)
    requires Passing(q0, q, k, n, since, now)
    ensures n + (|q0| - k) <= |q| && k <= |q0|
  {
  }

  lemma {:induction false} PassEnds(q0: Queue, q: Queue, k: nat, n: nat, since: int, now: int)
    requires k == |q0| && Passing(q0, q, k, n, since, now)
    ensures forall e :: e in q0 ==> Done(e, q, |q|, since, now)
  {
    forall e | e in q0
      ensures Done(e, q, |q|, since, now)
    {
      var i :| 0 <= i < |q0| && q0[i] == e;
      assert Done(q0[i], q, n, since, now);
    }
  }

  lemma {:induction false} TurnsPass(x: Snapshot, ts: seq<Turn>, y: Snapshot, n: nat, more: bool, t: Tables) returns (k: nat)
    requires Sound(x) && Turns(x, ts, y, n, more, t)
    ensures Passing(x.state.queue, y.state.queue, k, n, x.clock, y.clock)
    ensures !more ==> k == |x.state.queue|
    decreases |ts|
  {
    var q0 := x.state.queue;
    if ts == [] {
      PassStarts(q0, x.clock);
      k := 0;
    } else {
      var l := ts[|ts| - 1];
      k := TurnsPass(x, ts[..|ts| - 1], l.before, l.n, true, t);
      TurnsKeepSound(x, ts[..|ts| - 1], l.before, l.n, true, t);
      hide Sound, Visit, Passing;
      PassReaches(q0, l.before.state.queue, k, l.n, x.clock, l.before.clock);
      VisitPasses(q0, l.before, y, k, l.n, x.clock, l.reading, l.nows, t);
      k := if k < |q0| then k + 1 else k;
    }
  }

  /** A whole pass gives every entry its turn: it was asked for again, given up, or is not yet due. */
  lemma {:induction false} TurnsDone(x: Snapshot, ts: seq<Turn>, y: Snapshot, n: nat, t: Tables)
    requires Sound(x) && Turns(x, ts, y, n, false, t)
    ensures forall e :: e in x.state.queue ==> Done(e, y.state.queue, |y.state.queue|, x.clock, y.clock)
  {
    var k := TurnsPass(x, ts, y, n, false, t);
    hide Sound, Turns, Done, Passing;
    PassEnds(x.state.queue, y.state.queue, k, n, x.clock, y.clock);
  }
}
