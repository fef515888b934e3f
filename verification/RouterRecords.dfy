/**
 The mutable router records of the link-state database, and the loops of
 `compute_rtable` that update them in place. Each method is proved to compute the
 corresponding function of module ShortestPaths on the labels the records hold.
 */
module RouterRecords {
  import opened Words
  import opened LinkState
  import opened ShortestPaths

  class Router {
    var routerId: Uint32
    var interfaces: seq<Interface>
    var distance: Uint32
    var shortestPathFound: bool
    var prevRouter: Router?

    constructor (routerId: Uint32, interfaces: seq<Interface>)
      ensures this.routerId == routerId && this.interfaces == interfaces
      ensures distance == 0 && !shortestPathFound && prevRouter == null
    {
      this.routerId, this.interfaces := routerId, interfaces;
      distance, shortestPathFound, prevRouter := 0, false, null;
    }
  }

  /** Records in the list are distinct, and a non-null previous router is itself listed. */
  ghost predicate Listed(routers: seq<Router>)
    reads routers
  {
    && (forall i, j :: 0 <= i < j < |routers| ==> routers[i] != routers[j])
    && (forall i :: 0 <= i < |routers| && routers[i].prevRouter != null ==> routers[i].prevRouter in routers)
  }

  ghost function DatabaseOf(routers: seq<Router>): (db: Database)
    reads routers
    ensures |db| == |routers|
  {
    seq(|routers|, i requires 0 <= i < |routers| reads routers => Lsa(routers[i].routerId, routers[i].interfaces))
  }

  ghost function LabelOf(routers: seq<Router>, i: nat): Label
    requires Listed(routers) && i < |routers|
    reads routers
  {
    var r := routers[i];
    Label(r.distance, r.shortestPathFound, if r.prevRouter == null then 0 else r.prevRouter.routerId)
  }

  ghost function LabelsOf(routers: seq<Router>): (s: Labels)
    requires Listed(routers)
    reads routers
    ensures |s| == |routers|
    ensures forall i :: 0 <= i < |s| ==> s[i] == LabelOf(routers, i)
  {
    seq(|routers|, i requires 0 <= i < |routers| && Listed(routers) reads routers => LabelOf(routers, i))
  }

  /** First listed router with the given id, or null. */
  method GetRouterByRid(rid: Uint32, routers: seq<Router>) returns (r: Router?)
    ensures var i := IndexOf(DatabaseOf(routers), rid);
            r == if i < |routers| then routers[i] else null
  {
    ghost var db := DatabaseOf(routers);
    for k := 0 to |routers|
      invariant forall j :: 0 <= j < k ==> db[j].routerId != rid
    {
      if routers[k].routerId == rid {
        assert db[k].routerId == rid;
        return routers[k];
      }
    }
    return null;
  }

  /** The unfinished router with the least distance below INFINITY, the first of several, or null. */
  method GetShortest(routers: seq<Router>) returns (r: Router?)
    requires Listed(routers)
    ensures var b := Select(LabelsOf(routers), |routers|);
            r == if b < |routers| then routers[b] else null
  {
    r := null;
    var shortest: Uint32 := INFINITY;
    ghost var s := LabelsOf(routers);
    for k := 0 to |routers|
      invariant var b := Select(s, k);
                && r == (if b < |routers| then routers[b] else null)
                && shortest == (if b < |routers| then s[b].distance else INFINITY)
    {
      assert s[k] == LabelOf(routers, k);
      if !routers[k].shortestPathFound && routers[k].distance < shortest {
        r, shortest := routers[k], routers[k].distance;
      }
    }
  }

  /** One step of the loop below: what interface i of w offers. */
  method RelaxInterface(w: Router, i: Interface, routers: seq<Router>, ghost wi: nat)
    requires Listed(routers) && wi < |routers| && routers[wi] == w
    modifies routers`distance, routers`prevRouter
    ensures Listed(routers) && DatabaseOf(routers) == old(DatabaseOf(routers))
    ensures LabelsOf(routers) == RelaxOne(DatabaseOf(routers), old(LabelsOf(routers)), wi, i)
  {
    if i.routerId != 0 && i.isActive {
      ghost var db, s := DatabaseOf(routers), LabelsOf(routers);
      ghost var x: nat := IndexOf(db, i.routerId);
      var v := GetRouterByRid(i.routerId, routers);
      assert s[wi] == LabelOf(routers, wi);
      if v != null {
        assert s[x] == LabelOf(routers, x);
        if !v.shortestPathFound && PlusOne(w.distance) < v.distance {
          v.distance := PlusOne(w.distance);
          v.prevRouter := w;
          assert LabelsOf(routers) == s[x := LabelOf(routers, x)];
          assert DatabaseOf(routers) == db;
        }
      }
    }
  }

  /** Relaxes the neighbours of w. */
  method UpdateNeighborDistance(w: Router, routers: seq<Router>, ghost wi: nat)
    requires Listed(routers) && wi < |routers| && routers[wi] == w
    modifies routers`distance, routers`prevRouter
    ensures Listed(routers)
    ensures LabelsOf(routers) == Relax(DatabaseOf(routers), old(LabelsOf(routers)), wi, |w.interfaces|)
  {
    ghost var db, s := DatabaseOf(routers), LabelsOf(routers);
    ghost var t := s;
    for k := 0 to |w.interfaces|
      invariant Listed(routers) && DatabaseOf(routers) == db && LabelsOf(routers) == t
      invariant t == Relax(db, s, wi, k)
    {
      RelaxInterface(w, w.interfaces[k], routers, wi);
      t := RelaxOne(db, t, wi, w.interfaces[k]);
    }
  }

  /** The first loop of `compute_rtable`. */
  method Initialise(us: Uint32, routers: seq<Router>)
    requires Listed(routers)
    modifies routers`distance, routers`shortestPathFound
    ensures Listed(routers) && DatabaseOf(routers) == old(DatabaseOf(routers))
    ensures LabelsOf(routers) == Init(DatabaseOf(routers), old(LabelsOf(routers)), us)
  {
    ghost var db, s := DatabaseOf(routers), LabelsOf(routers);
    for k := 0 to |routers|
      invariant Listed(routers) && DatabaseOf(routers) == db
      invariant |LabelsOf(routers)| == |s|
      invariant forall j :: 0 <= j < |s| ==>
        LabelsOf(routers)[j] == if j < k then InitLabel(s[j], db[j].routerId, us) else s[j]
    {
      ghost var t := LabelsOf(routers);
      assert t[k] == LabelOf(routers, k);
      InitialiseOne(us, routers, k);
    }
  }

  method InitialiseOne(us: Uint32, routers: seq<Router>, k: nat)
    requires Listed(routers) && k < |routers|
    modifies routers`distance, routers`shortestPathFound
    ensures Listed(routers) && DatabaseOf(routers) == old(DatabaseOf(routers))
    ensures LabelsOf(routers) == old(LabelsOf(routers))[k := InitLabel(old(LabelsOf(routers))[k], routers[k].routerId, us)]
  {
    ghost var db, s := DatabaseOf(routers), LabelsOf(routers);
    var r := routers[k];
    assert s[k] == LabelOf(routers, k);
    if r.routerId == us {
      r.distance, r.shortestPathFound := 0, true;
    } else if r.routerId != 0 {
      r.distance, r.shortestPathFound := INFINITY, false;
    }
    assert DatabaseOf(routers) == db;
    assert LabelsOf(routers) == s[k := LabelOf(routers, k)];
  }

  /** Body of the selection loop: w joins the finished routers and its neighbours are relaxed. */
  method Finish(w: Router, routers: seq<Router>, ghost wi: nat)
    requires Listed(routers) && wi < |routers| && routers[wi] == w
    modifies routers`distance, routers`shortestPathFound, routers`prevRouter
    ensures Listed(routers) && DatabaseOf(routers) == old(DatabaseOf(routers))
    ensures LabelsOf(routers) == Settle(DatabaseOf(routers), old(LabelsOf(routers)), wi)
  {
    ghost var db, s := DatabaseOf(routers), LabelsOf(routers);
    assert s[wi] == LabelOf(routers, wi);
    w.shortestPathFound := true;
    assert DatabaseOf(routers) == db;
    assert LabelsOf(routers) == Mark(s, wi);
    UpdateNeighborDistance(w, routers, wi);
    assert DatabaseOf(routers) == db;
  }

  /** One turn of the loop below: w is finished, and the next router chosen. */
  method Turn(w: Router, routers: seq<Router>, ghost wi: nat) returns (next: Router?)
    requires Listed(routers) && wi < |routers| && routers[wi] == w
    modifies routers`distance, routers`shortestPathFound, routers`prevRouter
    ensures Listed(routers) && DatabaseOf(routers) == old(DatabaseOf(routers))
    ensures LabelsOf(routers) == Settle(DatabaseOf(routers), old(LabelsOf(routers)), wi)
    ensures var b := Select(LabelsOf(routers), |routers|);
            next == if b < |routers| then routers[b] else null
  {
    hide Listed, Settle, Select, DatabaseOf, LabelsOf;
    Finish(w, routers, wi);
    next := GetShortest(routers);
  }

  /** Initialisation and the selection loop: the labels become `Solve` of the old ones. */
  method ComputeDistances(us: Uint32, routers: seq<Router>)
    requires Listed(routers)
    modifies routers`distance, routers`shortestPathFound, routers`prevRouter
    ensures Listed(routers) && DatabaseOf(routers) == old(DatabaseOf(routers))
    ensures LabelsOf(routers) == Solve(DatabaseOf(routers), old(LabelsOf(routers)), us)
  {
    ghost var db, s := DatabaseOf(routers), LabelsOf(routers);
    Initialise(us, routers);
    var w := GetRouterByRid(us, routers);
    ghost var wi: nat := IndexOf(db, us);
    ghost var goal := Solve(db, s, us);
    hide Settle, Select, Unfinished, Mark, Init;
    ghost var t := LabelsOf(routers);
    while w != null
      invariant Listed(routers) && DatabaseOf(routers) == db && LabelsOf(routers) == t
      invariant wi <= |routers| && w == (if wi < |routers| then routers[wi] else null)
      invariant goal == if wi < |routers| then Loop(db, t, wi) else t
      decreases wi < |routers|, if wi < |routers| then |Unfinished(Mark(t, wi))| else 0
    {
      w := Turn(w, routers, wi);
      SettleShrinks(db, t, wi);
      t := Settle(db, t, wi);
      wi := Select(t, |t|);
    }
  }
}
