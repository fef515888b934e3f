/**
 The loops of route construction over the router records, and the lookup of the
 outgoing interface and gateway that turns a wrapper into a routing table entry.
 */
module RouteConstruction {
  import opened Words
  import opened LinkState
  import opened ShortestPaths
  import opened RouterRecords
  import opened PrevChains
  import opened RouteWrappers

  datatype Neighbour = Neighbour(routerId: Uint32, ip: Uint32)
  datatype Iface = Iface(name: string, ip: Uint32, mask: Uint32, neighbours: seq<Neighbour>)

  // ----- wrappers from the router records

  /** Follows the previous pointers back from r until the previous router is the source. */
  method WalkToSource(r: Router, routers: seq<Router>, ghost ri: nat, ghost us: nat) returns (y: Router)
    requires Listed(routers) && ri < |routers| && routers[ri] == r && r.prevRouter != null
    requires Ready(DatabaseOf(routers), LabelsOf(routers), us)
    requires WellFormed(DatabaseOf(routers))
    ensures ri != us && LeadsBack(DatabaseOf(routers), LabelsOf(routers), us, ri)
    ensures y == routers[FirstHop(DatabaseOf(routers), LabelsOf(routers), us, ri)]
  {
    ghost var db, s := DatabaseOf(routers), LabelsOf(routers);
    PointerHasId(routers, ri);
    assert s[us] == LabelOf(routers, us);
    assert LeadsBack(db, s, us, ri);
    ghost var n: nat :| Steps(db, s, us, ri, n);
    FirstHopIs(db, s, us, ri, n);
    y := r;
    ghost var c: nat := ri;
    ghost var goal := WalkBack(db, s, us, ri, n);
    Previous(routers, c, us, n);
    while y.prevRouter.distance != 0
      invariant c < |routers| && routers[c] == y && c != us
      invariant Steps(db, s, us, c, n) && WalkBack(db, s, us, c, n) == goal
      invariant y.prevRouter != null && IndexOf(db, s[c].prev) < |routers| && routers[IndexOf(db, s[c].prev)] == y.prevRouter
      decreases n
    {
      ghost var p := IndexOf(db, s[c].prev);
      assert s[p] == LabelOf(routers, p);
      y := y.prevRouter;
      c, n := p, n - 1;
      Previous(routers, c, us, n);
    }
    ghost var p := IndexOf(db, s[c].prev);
    assert s[p] == LabelOf(routers, p);
  }

  /** A null pointer and only a null pointer reads as id 0. */
  lemma {:induction false} PointerHasId(routers: seq<Router>, c: nat)
    requires Listed(routers) && c < |routers| && WellFormed(DatabaseOf(routers))
    ensures LabelsOf(routers)[c] == LabelOf(routers, c)
    ensures LabelsOf(routers)[c].prev == 0 <==> routers[c].prevRouter == null
  {
    if routers[c].prevRouter != null {
      var i :| 0 <= i < |routers| && routers[i] == routers[c].prevRouter;
      assert DatabaseOf(routers)[i].routerId == LabelOf(routers, c).prev;
    }
  }

  /** On a chain that leads to us, every router but ours has a previous router, found under its id. */
  lemma {:induction false} Previous(routers: seq<Router>, c: nat, us: nat, n: nat)
    requires Listed(routers) && c < |routers| && us < |routers|
    requires Steps(DatabaseOf(routers), LabelsOf(routers), us, c, n) && c != us
    requires WellFormed(DatabaseOf(routers))
    ensures routers[c].prevRouter != null
    ensures var p := IndexOf(DatabaseOf(routers), LabelsOf(routers)[c].prev);
            p < |routers| && routers[p] == routers[c].prevRouter
  {
    var db, s := DatabaseOf(routers), LabelsOf(routers);
    assert s[c] == LabelOf(routers, c);
    var i :| 0 <= i < |routers| && routers[i] == routers[c].prevRouter;
    assert db[i].routerId == s[c].prev;
    IndexOfSelf(db, i);
  }

  /** Position of the first wrapper for this masked subnet and mask, or the length of the list. */
  method GetRouteWrapper(head: seq<Wrapper>, p: Prefix) returns (k: nat)
    ensures k == Find(head, p)
  {
    k := 0;
    while k < |head|
      invariant k <= |head| && forall j :: 0 <= j < k ==> head[j].prefix != p
    {
      if head[k].prefix == p {
        return;
      }
      k := k + 1;
    }
  }

  /** Id of the next router for a route learned from interface i of router r. */
  method NextRouterId(r: Router, i: Interface, routers: seq<Router>, ghost ri: nat, ghost us: nat) returns (rid: Uint32)
    requires Listed(routers) && ri < |routers| && routers[ri] == r
    requires WellFormed(DatabaseOf(routers)) && Ready(DatabaseOf(routers), LabelsOf(routers), us)
    ensures rid == NextRid(DatabaseOf(routers), LabelsOf(routers), us, ri, i)
  {
    ghost var db, s := DatabaseOf(routers), LabelsOf(routers);
    PointerHasId(routers, ri);
    if r.prevRouter == null {
      rid := i.routerId;
    } else {
      var y := WalkToSource(r, routers, ri, us);
      rid := y.routerId;
      assert db[FirstHop(db, s, us, ri)].routerId == rid;
    }
  }

  /** Appends the wrapper for interface i of router r, or lowers the one there is. */
  method AddRouteWrapper(us: Uint32, head: seq<Wrapper>, r: Router, i: Interface, routers: seq<Router>,
      ghost ri: nat, ghost ui: nat)
    returns (ws: seq<Wrapper>)
    requires Listed(routers) && ri < |routers| && routers[ri] == r
    requires WellFormed(DatabaseOf(routers)) && Ready(DatabaseOf(routers), LabelsOf(routers), ui)
    requires routers[ui].routerId == us
    ensures ws == Add(DatabaseOf(routers), LabelsOf(routers), ui, head, ri, i)
  {
    ghost var db, s := DatabaseOf(routers), LabelsOf(routers);
    assert s[ri].distance == LabelOf(routers, ri).distance && (db[ri].routerId == db[ui].routerId <==> us == r.routerId);
    var p := PrefixOf(i);
    var k := GetRouteWrapper(head, p);
    if k < |head| && r.distance >= head[k].distance {
      return head;
    }
    var next := NextRouterId(r, i, routers, ri, ui);
    if k < |head| {
      var wrapper := head[k].(distance := r.distance, nextRid := next);
      if us == r.routerId {
        wrapper := wrapper.(direct := true);
      }
      ws := head[k := wrapper];
    } else {
      ws := head + [Wrapper(p, r.distance % 0x1_0000, next, us == r.routerId)];
    }
  }

  method AddRouteWrappers(us: Uint32, head: seq<Wrapper>, r: Router, routers: seq<Router>, ghost ri: nat, ghost ui: nat)
    returns (ws: seq<Wrapper>)
    requires Listed(routers) && ri < |routers| && routers[ri] == r
    requires WellFormed(DatabaseOf(routers)) && Ready(DatabaseOf(routers), LabelsOf(routers), ui)
    requires routers[ui].routerId == us
    ensures ws == AddRouter(DatabaseOf(routers), LabelsOf(routers), ui, head, ri, |r.interfaces|)
  {
    ghost var db, s := DatabaseOf(routers), LabelsOf(routers);
    assert db[ri].interfaces == r.interfaces;
    ws := head;
    for j := 0 to |r.interfaces|
      invariant ws == AddRouter(db, s, ui, head, ri, j)
    {
      ws := AddRouteWrapper(us, ws, r, r.interfaces[j], routers, ri, ui);
    }
  }

  method BuildRouteWrapperList(us: Uint32, routers: seq<Router>, ghost ui: nat) returns (ws: seq<Wrapper>)
    requires Listed(routers)
    requires WellFormed(DatabaseOf(routers)) && Ready(DatabaseOf(routers), LabelsOf(routers), ui)
    requires routers[ui].routerId == us
    ensures ws == Build(DatabaseOf(routers), LabelsOf(routers), ui, |routers|)
  {
    ghost var db, s := DatabaseOf(routers), LabelsOf(routers);
    ws := [];
    for n := 0 to |routers|
      invariant ws == Build(db, s, ui, n)
    {
      assert db[n].interfaces == routers[n].interfaces;
      ws := AddRouteWrappers(us, ws, routers[n], routers, n, ui);
    }
  }
}
