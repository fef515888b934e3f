/**
 Forwarding across the whole network, when every router has built its routes from the
 same database: no loops, and delivery over a shortest path.
 */
module Forwarding {
  import opened Words
  import opened LinkState
  import opened ShortestPaths
  import opened PrevChains
  import opened RouteWrappers

  /** The wrappers router u computes, whatever labels its earlier runs have left behind. */
  ghost function RoutesOf(db: Database, s: Labels, u: nat): (ws: seq<Wrapper>)
    requires WellFormed(db) && |db| <= 0xFFFF && u < |db| && Grounded(db, s, u)
  {
    SolveCorrect(db, s, u);
    SolveKeepsGrounded(db, s, u);
    Build(db, Solve(db, s, db[u].routerId), u, |db|)
  }

  lemma {:induction false} RoutesAreGood(db: Database, s: Labels, u: nat)
    requires WellFormed(db) && |db| <= 0xFFFF && u < |db| && Grounded(db, s, u)
    ensures GoodWrappers(db, u, RoutesOf(db, s, u))
  {
    SolveCorrect(db, s, u);
    SolveKeepsGrounded(db, s, u);
    var t := Solve(db, s, db[u].routerId);
    SolvedFits(db, t, u);
    BuildCorrect(db, t, u);
  }

  /** Where router u sends a packet for p that it does not deliver itself. */
  function NextRouter(db: Database, ws: seq<Wrapper>, p: Prefix): nat
    requires Find(ws, p) < |ws|
  {
    IndexOf(db, ws[Find(ws, p)].nextRid)
  }

  /** Forwarding from u arrives after exactly `hops` links at a router that is directly connected to p. */
  ghost predicate Delivers(db: Database, routes: seq<seq<Wrapper>>, u: nat, p: Prefix, hops: nat)
    requires |routes| == |db|
    decreases hops
  {
    && u < |db|
    && var ws := routes[u];
    var k := Find(ws, p);
    && k < |ws|
    && (ws[k].direct <==> hops == 0)
    && (hops > 0 ==>
          && Edge(db, u, NextRouter(db, ws, p))
          && Delivers(db, routes, NextRouter(db, ws, p), p, hops - 1))
  }

  /** A neighbour that is one hop closer to some advertiser has exactly one hop less to go. */
  lemma {:induction false} NeighbourDistance(db: Database, u: nat, y: nat, x: nat, p: Prefix, d: nat)
    requires d > 0 && PrefixDistance(db, u, p, d) && Edge(db, u, y)
    requires Advertises(db, x, p) && Connected(db, y, x, d - 1)
    ensures PrefixDistance(db, y, p, d - 1)
  {
    hide Advertises, Edge;
    forall z: nat, h: nat | Advertises(db, z, p) && Connected(db, y, z, h)
      ensures d - 1 <= h
    {
      ConnectedEdge(db, u, y);
      ConnectedJoin(db, u, y, z, 1, h);
    }
  }

  /** One hop along a route lowers the distance to the nearest advertiser by exactly one. */
  lemma {:induction false} HopLowersDistance(db: Database, ws: seq<Wrapper>, u: nat, p: Prefix, d: nat)
    requires WellFormed(db) && u < |db| && GoodWrappers(db, u, ws) && PrefixDistance(db, u, p, d)
    ensures Find(ws, p) < |ws| && (ws[Find(ws, p)].direct <==> d == 0)
    ensures d > 0 ==> Edge(db, u, NextRouter(db, ws, p)) && PrefixDistance(db, NextRouter(db, ws, p), p, d - 1)
  {
    hide Advertises;
    var a: nat :| Advertises(db, a, p) && Connected(db, u, a, d);
    assert Reachable(db, u, a) && ReachablePrefix(db, u, p);
    var w := ws[Find(ws, p)];
    assert GoodWrapper(db, u, w);
    var c: nat :| Advertises(db, c, p) && Connected(db, u, c, w.distance);
    assert w.distance == d;
    if w.direct {
      assert Connected(db, u, u, 0);
    } else {
      var y: nat, x: nat :| Edge(db, u, y) && db[y].routerId == w.nextRid && Advertises(db, x, p)
        && Connected(db, y, x, d - 1);
      IndexOfSelf(db, y);
      NeighbourDistance(db, u, y, x, p, d);
    }
  }

  lemma {:induction false} GoodRoutesDeliver(db: Database, routes: seq<seq<Wrapper>>, u: nat, p: Prefix, d: nat)
    requires WellFormed(db) && |routes| == |db| && u < |db|
    requires forall v: nat :: v < |db| ==> GoodWrappers(db, v, routes[v])
    requires PrefixDistance(db, u, p, d)
    ensures Delivers(db, routes, u, p, d)
    decreases d
  {
    HopLowersDistance(db, routes[u], u, p, d);
    if d > 0 {
      GoodRoutesDeliver(db, routes, NextRouter(db, routes[u], p), p, d - 1);
    }
  }

  /**
   Loop freedom: when every router has run the computation on the same database, each
   starting from its own leftover labels, a packet for a prefix whose nearest advertiser
   is d hops away is delivered in exactly d hops.
   */
  lemma {:induction false} NetworkLoopFree(db: Database, labels: seq<Labels>, routes: seq<seq<Wrapper>>,
      u: nat, p: Prefix, d: nat)
    requires WellFormed(db) && |db| <= 0xFFFF && |labels| == |routes| == |db| && u < |db|
    requires forall v: nat :: v < |db| ==> Grounded(db, labels[v], v)
    requires forall v: nat :: v < |db| ==> routes[v] == RoutesOf(db, labels[v], v)
    requires PrefixDistance(db, u, p, d)
    ensures Delivers(db, routes, u, p, d)
  {
    forall v: nat | v < |db|
      ensures GoodWrappers(db, v, routes[v])
    {
      RoutesAreGood(db, labels[v], v);
    }
    GoodRoutesDeliver(db, routes, u, p, d);
  }

  /** Every prefix with a reachable advertiser has such a distance. */
  lemma {:induction false} ReachableHasDistance(db: Database, u: nat, p: Prefix) returns (d: nat)
    requires ReachablePrefix(db, u, p)
    ensures PrefixDistance(db, u, p, d)
  {
    var a: nat :| Advertises(db, a, p) && Reachable(db, u, a);
    d :| Connected(db, u, a, d);
    while exists b: nat, h: nat :: h < d && Advertises(db, b, p) && Connected(db, u, b, h)
      invariant exists x: nat :: Advertises(db, x, p) && Connected(db, u, x, d)
      decreases d
    {
      var b: nat, h: nat :| h < d && Advertises(db, b, p) && Connected(db, u, b, h);
      d := h;
    }
  }
}
