/**
 Delivery of a packet by its destination address: every router looks the address up in
 the table its own round has left, and hands the packet to the gateway found there.
 */
module Delivery {
  import opened Sequences
  import opened Words
  import opened LinkState
  import opened ShortestPaths
  import opened PrevChains
  import opened RouteWrappers
  import opened Forwarding
  import opened RouteConstruction
  import opened RouteOrder
  import opened RoutingTable
  import opened RouteLookup

  predicate Covers(p: Prefix, dest: Uint32) {
    p.ip == And(dest, p.mask)
  }

  /** Of the advertised prefixes that cover the destination none is longer than p. */
  ghost predicate Longest(db: Database, p: Prefix, dest: Uint32) {
    && Covers(p, dest)
    && forall a: nat, q: Prefix :: Advertises(db, a, q) && Covers(q, dest) ==> Bits(q.mask) <= Bits(p.mask)
  }

  ghost predicate PrefixMasks(db: Database) {
    forall a: nat, q: Prefix :: Advertises(db, a, q) ==> IsPrefix(q.mask)
  }

  /** Router v hears its neighbours in the database, and has an interface on each subnet it advertises. */
  ghost predicate Knows(db: Database, v: nat, ifs: seq<Iface>) {
    && HearsAll(db, v, ifs)
    && (forall p: Prefix :: Advertises(db, v, p) ==> IfaceBySubnet(ifs, p) < |ifs|)
  }

  /** The address of every neighbour belongs to the router with the neighbour's id. */
  ghost predicate Named(db: Database, ifs: seq<Iface>, owner: map<Uint32, nat>) {
    forall i, n :: 0 <= i < |ifs| && 0 <= n < |ifs[i].neighbours| ==>
      var b := ifs[i].neighbours[n];
      b.ip != 0 && b.ip in owner && owner[b.ip] == IndexOf(db, b.routerId)
  }

  /** On an interface of that name a neighbour with this id is heard, and the address is its. */
  ghost predicate HeardOn(ifs: seq<Iface>, name: string, ip: Uint32, rid: Uint32) {
    exists i, n :: i in ifs && i.name == name && 0 <= n < |i.neighbours| && i.neighbours[n] == Neighbour(rid, ip)
  }

  ghost predicate HasIface(ifs: seq<Iface>, name: string) {
    exists i :: i in ifs && i.name == name
  }

  /** The table has exactly the entries computed for these wrappers, in any order. */
  ghost predicate Tabulates(t: Table, ws: seq<Wrapper>, ifs: seq<Iface>) {
    var d := Entries(ws, ifs, |ws|);
    d.Some? && forall e :: e in t <==> e in d.value
  }

  // ----- a round leaves such a table

  /** Where there are no static routes, a round tabulates the wrappers of its router. */
  lemma {:induction false} RoundTabulates(db: Database, s: Labels, v: nat, ifs: seq<Iface>, t: Table, u: Table)
    requires WellFormed(db) && |db| <= 0xFFFF && v < |db| && Grounded(db, s, v) && Statics(t) == []
    requires var s1 := Solve(db, s, db[v].routerId);
             Ready(db, s1, v) && RoundResult(db, s1, v, ifs, t, u)
    ensures Tabulates(u, RoutesOf(db, s, v), ifs)
  {
    var d := Dynamics(db, Solve(db, s, db[v].routerId), v, ifs).value;
    assert Stable([] + d, u) && [] + d == d;
    forall e
      ensures e in d <==> e in u
    {
      RankHas(d, e);
      RankHas(u, e);
      assert Rank(d, e) == Rank(u, e);
    }
  }

  // ----- entries and the wrappers they come from

  lemma {:induction false} EntriesFrom(ws: seq<Wrapper>, ifs: seq<Iface>, n: nat, e: RouteEntry)
    requires n <= |ws| && Entries(ws, ifs, n).Some?
    ensures e in Entries(ws, ifs, n).value <==> exists j :: 0 <= j < n && EntryFor(ws[j], ifs) == Entry(e)
  {
    hide EntryFor;
    if n > 0 {
      EntriesFrom(ws, ifs, n - 1, e);
    }
  }

  /** The entry of a wrapper is for its prefix, and its gateway is the next router, or none when the prefix is our own. */
  lemma {:induction false} EntryShape(db: Database, w: Wrapper, ifs: seq<Iface>, owner: map<Uint32, nat>, e: RouteEntry)
    requires EntryFor(w, ifs) == Entry(e) && Named(db, ifs, owner)
    ensures e.ip == w.prefix.ip && e.mask == w.prefix.mask && e.isActive
    ensures if w.direct then e.gw == 0 else e.gw != 0 && e.gw in owner && owner[e.gw] == IndexOf(db, w.nextRid)
    ensures if w.direct then HasIface(ifs, e.iface) else HeardOn(ifs, e.iface, e.gw, w.nextRid)
  {
    EntryIsRoute(w, ifs);
    var k: nat :| k < |ifs| && LeavesBy(w, ifs, k) && e.iface == ifs[k].name &&
      if w.direct then e.gw == 0
      else exists n: nat :: FirstNeighbour(ifs[k], w.nextRid, n) && e.gw == ifs[k].neighbours[n].ip;
    assert ifs[k] in ifs;
    if !w.direct {
      var n: nat :| FirstNeighbour(ifs[k], w.nextRid, n) && e.gw == ifs[k].neighbours[n].ip;
      assert ifs[k].neighbours[n] == Neighbour(w.nextRid, e.gw);
    }
    hide LeavesBy, EntryFor;
  }

  lemma {:induction false} AdvertisedIsMasked(db: Database, a: nat, p: Prefix)
    requires Advertises(db, a, p)
    ensures And(p.ip, p.mask) == p.ip
  {
    var b: nat :| AdvertisesAt(db, a, b, p);
    AndIdempotent(db[a].interfaces[b].subnet, p.mask);
  }

  /** An advertised prefix's entry matches exactly the destinations the prefix covers. */
  lemma {:induction false} MatchesCovered(db: Database, a: nat, p: Prefix, e: RouteEntry, dest: Uint32)
    requires Advertises(db, a, p) && e.ip == p.ip && e.mask == p.mask && e.isActive
    ensures Matches(e, dest) <==> Covers(p, dest)
  {
    AdvertisedIsMasked(db, a, p);
    hide And;
  }

  /** Two advertised prefixes of one length that cover one destination are the same. */
  lemma {:induction false} SameLengthSame(p: Prefix, q: Prefix, dest: Uint32)
    requires IsPrefix(p.mask) && IsPrefix(q.mask) && Bits(p.mask) == Bits(q.mask)
    requires Covers(p, dest) && Covers(q, dest)
    ensures p == q
  {
    LargerIsLonger(p.mask, q.mask);
    LargerIsLonger(q.mask, p.mask);
    hide And, Bits, IsPrefix;
  }

  /** The lookup finds the entry for the longest advertised prefix that covers the destination. */
  lemma {:induction false} FindsLongest(db: Database, v: nat, ws: seq<Wrapper>, ifs: seq<Iface>, owner: map<Uint32, nat>,
      t: Table, p: Prefix, dest: Uint32, e: RouteEntry)
    requires GoodWrappers(db, v, ws) && Tabulates(t, ws, ifs) && Named(db, ifs, owner) && PrefixMasks(db)
    requires Longest(db, p, dest)
    requires Find(ws, p) < |ws| && EntryFor(ws[Find(ws, p)], ifs) == Entry(e)
    ensures var k := Best(t, dest, |t|);
            k < |t| && t[k] == e
  {
    var j := Find(ws, p);
    EntriesFrom(ws, ifs, |ws|, e);
    assert e in t;
    var i :| 0 <= i < |t| && t[i] == e;
    var k := Best(t, dest, |t|);
    BestIsLongest(t, dest, |t|);
    assert GoodWrapper(db, v, ws[j]);
    var a: nat :| Advertises(db, a, p);
    EntryShape(db, ws[j], ifs, owner, e);
    MatchesCovered(db, a, p, e, dest);
    assert k < |t|;
    var f := t[k];
    assert f in t;
    EntriesFrom(ws, ifs, |ws|, f);
    var m :| 0 <= m < |ws| && EntryFor(ws[m], ifs) == Entry(f);
    EntryShape(db, ws[m], ifs, owner, f);
    var q := ws[m].prefix;
    assert GoodWrapper(db, v, ws[m]);
    var c: nat :| Advertises(db, c, q);
    MatchesCovered(db, c, q, f, dest);
    assert Bits(q.mask) == Bits(p.mask);
    SameLengthSame(p, q, dest);
    assert m == j;
  }

  /** The entry every router has for a prefix with an advertiser d hops away. */
  lemma {:induction false} HasEntry(db: Database, v: nat, ws: seq<Wrapper>, ifs: seq<Iface>, owner: map<Uint32, nat>, p: Prefix, d: nat)
    returns (e: RouteEntry)
    requires WellFormed(db) && v < |db| && GoodWrappers(db, v, ws) && Knows(db, v, ifs) && Named(db, ifs, owner)
    requires PrefixDistance(db, v, p, d)
    ensures Find(ws, p) < |ws| && EntryFor(ws[Find(ws, p)], ifs) == Entry(e)
    ensures d == 0 ==> e.gw == 0 && Advertises(db, v, p) && HasIface(ifs, e.iface)
    ensures d > 0 ==> e.gw != 0 && e.gw in owner && owner[e.gw] == Forwarding.NextRouter(db, ws, p)
    ensures d > 0 ==> owner[e.gw] < |db| && HeardOn(ifs, e.iface, e.gw, db[owner[e.gw]].routerId)
  {
    HopLowersDistance(db, ws, v, p, d);
    var w := ws[Find(ws, p)];
    assert GoodWrapper(db, v, w);
    hide GoodWrappers, PrefixDistance, Advertises;
    if d > 0 {
      var y := Forwarding.NextRouter(db, ws, p);
      assert Edge(db, v, y) && db[y].routerId == w.nextRid;
    }
    assert EntryFor(w, ifs).Entry?;
    e := EntryFor(w, ifs).entry;
    EntryShape(db, w, ifs, owner, e);
  }

  /**
   A packet for dest at router u crosses exactly `hops` links, each time to the router that
   owns the gateway its table gives, a neighbour heard on the interface the table names,
   and ends at an advertiser of p whose table says that the destination is attached.
   */
  ghost predicate Arrives(db: Database, ifs: seq<seq<Iface>>, tables: seq<Table>, owner: map<Uint32, nat>, u: nat, p: Prefix, dest: Uint32, hops: nat)
    decreases hops
  {
    && u < |tables| == |ifs|
    && var t := tables[u];
    var k := Best(t, dest, |t|);
    && k < |t|
    && if hops == 0 then t[k].gw == 0 && Advertises(db, u, p) && HasIface(ifs[u], t[k].iface)
       else
         && t[k].gw != 0 && t[k].gw in owner && owner[t[k].gw] < |db|
         && HeardOn(ifs[u], t[k].iface, t[k].gw, db[owner[t[k].gw]].routerId)
         && Arrives(db, ifs, tables, owner, owner[t[k].gw], p, dest, hops - 1)
  }

  /** A round at router v, started with labels s and table t, has left table u, unless its assertion failed. */
  ghost predicate AfterRound(db: Database, v: nat, s: Labels, ifs: seq<Iface>, t: Table, u: Table)
    requires WellFormed(db) && |db| <= 0xFFFF && v < |db| && Grounded(db, s, v)
  {
    SolvedIsReady(db, s, v);
    var s1 := Solve(db, s, db[v].routerId);
    Dynamics(db, s1, v, ifs).Some? ==> RoundResult(db, s1, v, ifs, t, u)
  }

  /** What is asked of a router: no static routes, interfaces that fit the database, and a round. */
  ghost predicate Works(db: Database, v: nat, s: Labels, ifs: seq<Iface>, owner: map<Uint32, nat>, t: Table, u: Table)
    requires WellFormed(db) && |db| <= 0xFFFF
  {
    && v < |db| && Grounded(db, s, v) && Knows(db, v, ifs) && Named(db, ifs, owner) && OwnSubnets(db, v, ifs)
    && Statics(t) == [] && AfterRound(db, v, s, ifs, t, u)
  }

  lemma {:induction false} WorksTabulates(db: Database, v: nat, s: Labels, ifs: seq<Iface>, owner: map<Uint32, nat>,
      t: Table, u: Table)
    requires WellFormed(db) && |db| <= 0xFFFF && Works(db, v, s, ifs, owner, t, u)
    ensures Tabulates(u, RoutesOf(db, s, v), ifs)
  {
    hide Knows, Named, OwnSubnets, Tabulates, RoutesOf, Solve, Dynamics, RoundResult, Statics, Ready, Grounded;
    SolvedIsReady(db, s, v);
    RoundSucceeds(db, s, v, ifs);
    RoundTabulates(db, s, v, ifs, t, u);
  }

  /** The table of a working router names a gateway one hop closer, or says that the destination is attached. */
  lemma {:induction false} OneHop(db: Database, v: nat, s: Labels, ifs: seq<Iface>, owner: map<Uint32, nat>, before: Table,
      t: Table, p: Prefix, dest: Uint32, d: nat)
    requires WellFormed(db) && |db| <= 0xFFFF && Works(db, v, s, ifs, owner, before, t)
    requires PrefixMasks(db) && Longest(db, p, dest) && PrefixDistance(db, v, p, d)
    ensures var k := Best(t, dest, |t|);
            && k < |t|
            && (d == 0 ==> t[k].gw == 0 && Advertises(db, v, p) && HasIface(ifs, t[k].iface))
            && (d > 0 ==> t[k].gw != 0 && t[k].gw in owner && owner[t[k].gw] < |db|
                          && HeardOn(ifs, t[k].iface, t[k].gw, db[owner[t[k].gw]].routerId)
                          && PrefixDistance(db, owner[t[k].gw], p, d - 1))
  {
    WorksTabulates(db, v, s, ifs, owner, before, t);
    RoutesAreGood(db, s, v);
    var ws := RoutesOf(db, s, v);
    hide RoutesOf, PrefixDistance, PrefixMasks, Longest, Knows, Named, Tabulates, GoodWrappers, Best, Advertises,
      OwnSubnets, AfterRound, Statics, HeardOn, HasIface;
    var e := HasEntry(db, v, ws, ifs, owner, p, d);
    FindsLongest(db, v, ws, ifs, owner, t, p, dest, e);
    HopLowersDistance(db, ws, v, p, d);
  }

  /**
   When every router has made its round on the same database, a destination whose
   longest advertised prefix has its nearest advertiser d hops away is reached in exactly
   d hops, although less specific prefixes, reachable or not, have entries too.
   */
  lemma {:induction false} AddressDelivered(db: Database, labels: seq<Labels>, ifs: seq<seq<Iface>>,
      owner: map<Uint32, nat>, before: seq<Table>, tables: seq<Table>, u: nat, p: Prefix, dest: Uint32, d: nat)
    requires WellFormed(db) && |db| <= 0xFFFF && |labels| == |ifs| == |before| == |tables| == |db| && u < |db|
    requires forall v: nat :: v < |db| ==> Works(db, v, labels[v], ifs[v], owner, before[v], tables[v])
    requires PrefixMasks(db) && Longest(db, p, dest) && PrefixDistance(db, u, p, d)
    ensures Arrives(db, ifs, tables, owner, u, p, dest, d)
    decreases d
  {
    hide Works, WellFormed, PrefixDistance, PrefixMasks, Longest, Best, Advertises, HeardOn, HasIface;
    OneHop(db, u, labels[u], ifs[u], owner, before[u], tables[u], p, dest, d);
    if d > 0 {
      var t := tables[u];
      AddressDelivered(db, labels, ifs, owner, before, tables, owner[t[Best(t, dest, |t|)].gw], p, dest, d - 1);
    }
  }
}
