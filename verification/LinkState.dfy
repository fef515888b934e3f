/**
 The link-state database of the PWOSPF router, the directed graph it describes, and
 the two independent notions the route computation is judged against: walks over
 active links, and minimum hop counts.

 A node of the graph is the position of a router in the router list. Links lead from
 the router that advertises an interface to the listed router the interface names.
 */
module LinkState {

  import opened Words

  /** The `distance` field is a 32-bit unsigned integer; its largest value means "no path". */
  const INFINITY: Uint32 := 0xFFFF_FFFF

  datatype Interface = Interface(subnet: Uint32, mask: Uint32, routerId: Uint32, isActive: bool)
  datatype Lsa = Lsa(routerId: Uint32, interfaces: seq<Interface>)
  type Database = seq<Lsa>

  /** What every advertisement must satisfy: ids are unique and none of them is 0. */
  ghost predicate WellFormed(db: Database) {
    && (forall i, j :: 0 <= i < j < |db| ==> db[i].routerId != db[j].routerId)
    && (forall i :: 0 <= i < |db| ==> db[i].routerId != 0)
  }

  /** Position of the first router with the given id, or |db| when there is none. */
  function IndexOf(db: Database, rid: Uint32): (i: nat)
    ensures i <= |db|
    ensures i < |db| ==> db[i].routerId == rid
    ensures forall j :: 0 <= j < i ==> db[j].routerId != rid
  {
    IndexFrom(db, rid, 0)
  }

  function IndexFrom(db: Database, rid: Uint32, k: nat): (i: nat)
    requires k <= |db|
    ensures k <= i <= |db|
    ensures i < |db| ==> db[i].routerId == rid
    ensures forall j :: k <= j < i ==> db[j].routerId != rid
    decreases |db| - k
  {
    if k == |db| || db[k].routerId == rid then k else IndexFrom(db, rid, k + 1)
  }

  /** In a well-formed database a router is found at its own position. */
  lemma {:induction false} IndexOfSelf(db: Database, v: nat)
    requires WellFormed(db) && v < |db|
    ensures IndexOf(db, db[v].routerId) == v
  {
    var i := IndexOf(db, db[v].routerId);
    assert i <= v;
    assert db[i].routerId == db[v].routerId;
  }

  /** An interface that offers a usable link to the router with id `rid`. */
  predicate LinksTo(i: Interface, rid: Uint32) {
    i.routerId != 0 && i.isActive && i.routerId == rid
  }

  predicate Edge(db: Database, u: nat, v: nat) {
    u < |db| && v < |db| &&
    exists k :: 0 <= k < |db[u].interfaces| && LinksTo(db[u].interfaces[k], db[v].routerId)
  }

  // ----- walks and hop counts

  /** A walk of exactly `hops` links leads from u to v. */
  ghost predicate Connected(db: Database, u: nat, v: nat, hops: nat)
    decreases hops
  {
    if hops == 0 then u == v && u < |db|
    else exists y :: Connected(db, u, y, hops - 1) && Edge(db, y, v)
  }

  ghost predicate Reachable(db: Database, u: nat, v: nat) {
    exists hops :: Connected(db, u, v, hops)
  }

  /** `hops` links lead from u to v, and no walk from u to v is shorter. */
  ghost predicate MinHops(db: Database, u: nat, v: nat, hops: nat) {
    && Connected(db, u, v, hops)
    && forall h :: Connected(db, u, v, h) ==> hops <= h
  }

  lemma {:induction false} ConnectedJoin(db: Database, u: nat, v: nat, x: nat, h: nat, k: nat)
    requires Connected(db, u, v, h) && Connected(db, v, x, k)
    ensures Connected(db, u, x, h + k)
    decreases k
  {
    if k > 0 {
      var y: nat :| Connected(db, v, y, k - 1) && Edge(db, y, x);
      ConnectedJoin(db, u, v, y, h, k - 1);
    }
  }

  lemma {:induction false} ConnectedEdge(db: Database, u: nat, v: nat)
    requires Edge(db, u, v)
    ensures Connected(db, u, v, 1)
  {
    assert Connected(db, u, u, 0);
  }

  /** A router that is `hops` away is reached through a first hop that is one closer to it. */
  lemma {:induction false} MinHopsSplit(db: Database, u: nat, y: nat, v: nat, hops: nat)
    requires hops > 0 && MinHops(db, u, v, hops)
    requires Edge(db, u, y) && Connected(db, y, v, hops - 1)
    ensures MinHops(db, y, v, hops - 1)
  {
    forall h | Connected(db, y, v, h)
      ensures hops - 1 <= h
    {
      ConnectedEdge(db, u, y);
      ConnectedJoin(db, u, y, v, 1, h);
    }
  }
}
