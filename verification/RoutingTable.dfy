/**
 One round of the Dijkstra thread: drop the dynamic entries of the routing table, run
 the route computation, splice its entries in, and sort the table in place.
 */
module RoutingTable {
  import opened Sequences
  import opened Words
  import opened LinkState
  import opened ShortestPaths
  import opened RouterRecords
  import opened PrevChains
  import opened RouteWrappers
  import opened RouteConstruction
  import opened RouteOrder
  import opened NodeList

  // ----- from a wrapper to a routing table entry

  /** Position of the first neighbour with the given id, or the number of neighbours. */
  function NeighbourByRid(ns: seq<Neighbour>, rid: Uint32): (k: nat)
    ensures k <= |ns|
    ensures k < |ns| ==> ns[k].routerId == rid
    ensures forall j :: 0 <= j < k ==> ns[j].routerId != rid
  {
    if ns == [] || ns[0].routerId == rid then 0 else 1 + NeighbourByRid(ns[1..], rid)
  }

  predicate Hears(i: Iface, rid: Uint32) {
    NeighbourByRid(i.neighbours, rid) < |i.neighbours|
  }

  /** Position of the first interface with a neighbour of that id, or the number of interfaces. */
  function IfaceByRid(ifs: seq<Iface>, rid: Uint32): (k: nat)
    ensures k <= |ifs|
    ensures k < |ifs| ==> rid != 0 && Hears(ifs[k], rid)
    ensures rid != 0 ==> forall j :: 0 <= j < k ==> !Hears(ifs[j], rid)
  {
    if ifs == [] || rid == 0 then |ifs|
    else if Hears(ifs[0], rid) then 0
    else 1 + IfaceByRid(ifs[1..], rid)
  }

  predicate OnSubnet(i: Iface, p: Prefix) {
    And(i.ip, i.mask) == p.ip && i.mask == p.mask
  }

  function IfaceBySubnet(ifs: seq<Iface>, p: Prefix): (k: nat)
    ensures k <= |ifs|
    ensures k < |ifs| ==> OnSubnet(ifs[k], p)
    ensures forall j :: 0 <= j < k ==> !OnSubnet(ifs[j], p)
  {
    if ifs == [] || OnSubnet(ifs[0], p) then 0 else 1 + IfaceBySubnet(ifs[1..], p)
  }

  /** NoNeighbour is the assertion failure for an interface that does not know the next router. */
  datatype Lookup = Skip | NoNeighbour | Entry(entry: RouteEntry)

  function EntryOn(w: Wrapper, i: Iface): Lookup {
    var n := NeighbourByRid(i.neighbours, w.nextRid);
    if w.direct then Entry(RouteEntry(w.prefix.ip, 0, w.prefix.mask, i.name, false, true))
    else if n == |i.neighbours| then NoNeighbour
    else Entry(RouteEntry(w.prefix.ip, i.neighbours[n].ip, w.prefix.mask, i.name, false, true))
  }

  function EntryFor(w: Wrapper, ifs: seq<Iface>): Lookup {
    var k := IfaceByRid(ifs, w.nextRid);
    var m := IfaceBySubnet(ifs, w.prefix);
    if k < |ifs| then EntryOn(w, ifs[k])
    else if m < |ifs| then EntryOn(w, ifs[m])
    else Skip
  }

  /** The dynamic entries for the first n wrappers; None when the assertion fails. */
  function Entries(ws: seq<Wrapper>, ifs: seq<Iface>, n: nat): (t: Option<Table>)
    requires n <= |ws|
    ensures t.Some? ==> forall e :: e in t.value ==> !e.isStatic
    decreases n
  {
    if n == 0 then Some([])
    else
      match Entries(ws, ifs, n - 1)
      case None => None
      case Some(t) =>
        match EntryFor(ws[n - 1], ifs)
        case Skip => Some(t)
        case NoNeighbour => None
        case Entry(e) => Some(t + [e])
  }

  // ----- when the assertion holds

  /** The route computation survives this wrapper, in terms of the interfaces. */
  ghost predicate Survives(w: Wrapper, ifs: seq<Iface>) {
    || w.direct
    || (w.nextRid != 0 && exists i :: i in ifs && Hears(i, w.nextRid))
    || (forall i :: i in ifs ==> !OnSubnet(i, w.prefix))
    || (exists k :: 0 <= k < |ifs| && FirstOnSubnet(ifs, k, w.prefix) && Hears(ifs[k], w.nextRid))
  }

  predicate FirstOnSubnet(ifs: seq<Iface>, k: nat, p: Prefix) {
    && k < |ifs| && And(ifs[k].ip, ifs[k].mask) == p.ip && ifs[k].mask == p.mask
    && forall j :: 0 <= j < k ==> And(ifs[j].ip, ifs[j].mask) != p.ip || ifs[j].mask != p.mask
  }

  lemma {:induction false} EntrySurvives(w: Wrapper, ifs: seq<Iface>)
    ensures !EntryFor(w, ifs).NoNeighbour? <==> Survives(w, ifs)
  {
    var k, m := IfaceByRid(ifs, w.nextRid), IfaceBySubnet(ifs, w.prefix);
    hide And, NeighbourByRid;
    assert k < |ifs| ==> ifs[k] in ifs;
    assert m < |ifs| ==> ifs[m] in ifs && FirstOnSubnet(ifs, m, w.prefix);
  }

  /** The assertion holds throughout exactly when every wrapper survives. */
  lemma {:induction false} EntriesSurvive(ws: seq<Wrapper>, ifs: seq<Iface>, n: nat)
    requires n <= |ws|
    ensures Entries(ws, ifs, n).Some? <==> forall j :: 0 <= j < n ==> Survives(ws[j], ifs)
    decreases n
  {
    hide EntryFor, Survives;
    if n > 0 {
      EntriesSurvive(ws, ifs, n - 1);
      EntrySurvives(ws[n - 1], ifs);
    }
  }

  // ----- what the entries say

  ghost predicate Heard(i: Iface, rid: Uint32) {
    exists n :: 0 <= n < |i.neighbours| && i.neighbours[n].routerId == rid
  }

  /** Interface k is the first that hears the next router, or the first on the subnet when none does. */
  ghost predicate LeavesBy(w: Wrapper, ifs: seq<Iface>, k: nat) {
    if w.nextRid != 0 && exists i :: i in ifs && Heard(i, w.nextRid)
    then k < |ifs| && Heard(ifs[k], w.nextRid) && forall j :: 0 <= j < k ==> !Heard(ifs[j], w.nextRid)
    else FirstOnSubnet(ifs, k, w.prefix)
  }

  /** Neighbour n is the first with that id. */
  predicate FirstNeighbour(i: Iface, rid: Uint32, n: nat) {
    n < |i.neighbours| && i.neighbours[n].routerId == rid && forall j :: 0 <= j < n ==> i.neighbours[j].routerId != rid
  }

  /**
   The entry is for the wrapper's prefix and names the interface the wrapper leaves by. Its
   gateway is the next router's address as heard on that interface, or 0 on our own subnet.
   */
  ghost predicate RouteFor(e: RouteEntry, w: Wrapper, ifs: seq<Iface>) {
    && e.ip == w.prefix.ip && e.mask == w.prefix.mask && e.isActive && !e.isStatic
    && exists k: nat :: k < |ifs| && LeavesBy(w, ifs, k) && e.iface == ifs[k].name &&
         if w.direct then e.gw == 0
         else exists n: nat :: FirstNeighbour(ifs[k], w.nextRid, n) && e.gw == ifs[k].neighbours[n].ip
  }

  /** The table has, in order, a route for each wrapper that leaves by some interface. */
  ghost predicate RoutesFor(t: Table, ws: seq<Wrapper>, ifs: seq<Iface>, at: seq<nat>) {
    && |at| == |t| && Rising(at, |ws|)
    && (forall i :: 0 <= i < |t| ==> RouteFor(t[i], ws[at[i]], ifs))
    && (forall j: nat :: j < |ws| ==> (j in at <==> exists k: nat :: LeavesBy(ws[j], ifs, k)))
  }

  lemma {:induction false} HeardFirst(i: Iface, rid: Uint32)
    ensures Heard(i, rid) <==> Hears(i, rid)
    ensures Hears(i, rid) ==> FirstNeighbour(i, rid, NeighbourByRid(i.neighbours, rid))
  {
    if n :| 0 <= n < |i.neighbours| && i.neighbours[n].routerId == rid {
      assert NeighbourByRid(i.neighbours, rid) <= n;
    }
  }

  lemma {:induction false} EntryIsRoute(w: Wrapper, ifs: seq<Iface>)
    ensures EntryFor(w, ifs).Skip? <==> !exists k: nat :: LeavesBy(w, ifs, k)
    ensures EntryFor(w, ifs).Entry? ==> RouteFor(EntryFor(w, ifs).entry, w, ifs)
  {
    forall i
      ensures Heard(i, w.nextRid) <==> Hears(i, w.nextRid)
    {
      HeardFirst(i, w.nextRid);
    }
    var k, m := IfaceByRid(ifs, w.nextRid), IfaceBySubnet(ifs, w.prefix);
    hide Heard, Hears, NeighbourByRid, OnSubnet;
    if k < |ifs| {
      assert ifs[k] in ifs;
      assert LeavesBy(w, ifs, k);
      HeardFirst(ifs[k], w.nextRid);
    } else if m < |ifs| {
      assert LeavesBy(w, ifs, m);
      HeardFirst(ifs[m], w.nextRid);
    }
  }

  lemma {:induction false} RoutesSnoc(t: Table, ws: seq<Wrapper>, ifs: seq<Iface>, at: seq<nat>, w: Wrapper)
    requires RoutesFor(t, ws, ifs, at)
    ensures (!exists k: nat :: LeavesBy(w, ifs, k)) ==> RoutesFor(t, ws + [w], ifs, at)
    ensures forall e :: RouteFor(e, w, ifs) ==> RoutesFor(t + [e], ws + [w], ifs, at + [|ws|])
  {
    hide RouteFor, LeavesBy;
    assert forall i :: 0 <= i < |t| ==> (ws + [w])[at[i]] == ws[at[i]];
    forall e | RouteFor(e, w, ifs)
      ensures RoutesFor(t + [e], ws + [w], ifs, at + [|ws|])
    {
      RouteLeaves(e, w, ifs);
    }
  }

  lemma {:induction false} RouteLeaves(e: RouteEntry, w: Wrapper, ifs: seq<Iface>)
    requires RouteFor(e, w, ifs)
    ensures exists k: nat :: LeavesBy(w, ifs, k)
  {
  }

  /** What the computed entries say, whatever computes them. */
  lemma {:induction false} EntriesAreRoutes(ws: seq<Wrapper>, ifs: seq<Iface>, n: nat) returns (at: seq<nat>)
    requires n <= |ws| && Entries(ws, ifs, n).Some?
    ensures RoutesFor(Entries(ws, ifs, n).value, ws[..n], ifs, at)
    decreases n
  {
    hide EntryFor, RoutesFor, RouteFor, LeavesBy;
    at := [];
    if n == 0 {
      NoRoutes(ifs);
      assert ws[..0] == [];
    } else {
      at := EntriesAreRoutes(ws, ifs, n - 1);
      assert ws[..n] == ws[..n - 1] + [ws[n - 1]];
      EntryIsRoute(ws[n - 1], ifs);
      RoutesSnoc(Entries(ws, ifs, n - 1).value, ws[..n - 1], ifs, at, ws[n - 1]);
      if EntryFor(ws[n - 1], ifs).Entry? {
        at := at + [n - 1];
      }
    }
  }

  lemma {:induction false} NoRoutes(ifs: seq<Iface>)
    ensures RoutesFor([], [], ifs, [])
  {
  }

  method GetIfaceByRid(rid: Uint32, ifs: seq<Iface>) returns (k: nat)
    ensures k == IfaceByRid(ifs, rid)
  {
    if rid == 0 {
      return |ifs|;
    }
    k := 0;
    while k < |ifs|
      invariant k <= |ifs| && forall j :: 0 <= j < k ==> !Hears(ifs[j], rid)
    {
      var n := GetNbrByRid(ifs[k], rid);
      if n < |ifs[k].neighbours| {
        return;
      }
      k := k + 1;
    }
  }

  method GetNbrByRid(i: Iface, rid: Uint32) returns (n: nat)
    ensures n == NeighbourByRid(i.neighbours, rid)
  {
    n := 0;
    while n < |i.neighbours| && i.neighbours[n].routerId != rid
      invariant n <= |i.neighbours| && forall j :: 0 <= j < n ==> i.neighbours[j].routerId != rid
    {
      n := n + 1;
    }
  }

  method GetIfaceBySubnetMask(p: Prefix, ifs: seq<Iface>) returns (k: nat)
    ensures k == IfaceBySubnet(ifs, p)
  {
    k := 0;
    while k < |ifs| && !OnSubnet(ifs[k], p)
      invariant k <= |ifs| && forall j :: 0 <= j < k ==> !OnSubnet(ifs[j], p)
    {
      k := k + 1;
    }
  }

  /** Outgoing interface and gateway of a wrapper. */
  method LookupEntry(w: Wrapper, ifs: seq<Iface>) returns (l: Lookup)
    ensures l == EntryFor(w, ifs)
  {
    hide OnSubnet;
    var i := GetIfaceByRid(w.nextRid, ifs);
    if i == |ifs| {
      i := GetIfaceBySubnetMask(w.prefix, ifs);
      if i == |ifs| {
        return Skip;
      }
    }
    var gw: Uint32 := 0;
    if !w.direct {
      var n := GetNbrByRid(ifs[i], w.nextRid);
      if n == |ifs[i].neighbours| {
        return NoNeighbour;
      }
      gw := ifs[i].neighbours[n].ip;
    }
    l := Entry(RouteEntry(w.prefix.ip, gw, w.prefix.mask, ifs[i].name, false, true));
  }

  /** A new node for e at the end of a list that may still be empty. */
  method Append(head: Node?, ghost ns: seq<Node>, e: RouteEntry) returns (h: Node?, ghost ms: seq<Node>)
    requires Linked(head, ns)
    modifies ns`next
    ensures |ms| == |ns| + 1 && ms[..|ns|] == ns && fresh(ms[|ns|])
    ensures Linked(h, ms) && DataOf(ms) == old(DataOf(ns)) + [e]
  {
    var temp := new Node(e);
    ms := ns + [temp];
    if head == null {
      h := temp;
    } else {
      h := head;
      PushBack(head, temp, ns);
    }
  }

  /** Last loop of `compute_rtable`: the list of entries, or ok == false when the assertion fails. */
  method BuildRouteList(ws: seq<Wrapper>, ifs: seq<Iface>) returns (ok: bool, head: Node?, ghost ns: seq<Node>)
    ensures fresh(ns)
    ensures ok <==> Entries(ws, ifs, |ws|).Some?
    ensures ok <==> forall j :: 0 <= j < |ws| ==> Survives(ws[j], ifs)
    ensures ok ==> Linked(head, ns) && DataOf(ns) == Entries(ws, ifs, |ws|).value
    ensures ok ==> exists at :: RoutesFor(DataOf(ns), ws, ifs, at)
  {
    hide EntryFor, Survives, RoutesFor;
    EntriesSurvive(ws, ifs, |ws|);
    ok, head, ns := true, null, [];
    for k := 0 to |ws|
      invariant ok && fresh(ns) && Linked(head, ns)
      invariant Entries(ws, ifs, k) == Some(DataOf(ns))
    {
      var l := LookupEntry(ws[k], ifs);
      if l.NoNeighbour? {
        NoneStays(ws, ifs, k + 1, |ws|);
        return false, head, ns;
      }
      if l.Entry? {
        head, ns := Append(head, ns, l.entry);
      }
    }
    ghost var at := EntriesAreRoutes(ws, ifs, |ws|);
    assert ws[..|ws|] == ws;
  }

  lemma {:induction false} NoneStays(ws: seq<Wrapper>, ifs: seq<Iface>, n: nat, m: nat)
    requires n <= m <= |ws| && Entries(ws, ifs, n).None?
    ensures Entries(ws, ifs, m).None?
    decreases m
  {
    hide EntryFor;
    if n < m {
      NoneStays(ws, ifs, n, m - 1);
    }
  }

  // ----- the table sort

  /** Exchanges the data of a node and its successor. */
  method SwapData(cur: Node, ghost ns: seq<Node>, ghost head: Node?, ghost k: nat)
    requires Linked(head, ns) && k + 1 < |ns| && cur == ns[k] && cur.next != null
    modifies ns`data
    ensures Linked(head, ns)
    ensures DataOf(ns) == Exchange(old(DataOf(ns)), k)
  {
    ghost var t := DataOf(ns);
    assert cur.next == ns[k + 1];
    cur.data, cur.next.data := cur.next.data, cur.data;
    forall i | 0 <= i < |ns|
      ensures DataOf(ns)[i] == Exchange(t, k)[i]
    {
      assert i != k ==> ns[i] != ns[k];
      assert i != k + 1 ==> ns[i] != ns[k + 1];
    }
  }

  /** Puts a node and its successor in order. */
  method CompareAndSwap(cur: Node, ghost ns: seq<Node>, ghost head: Node?, ghost k: nat) returns (swap: bool)
    requires Linked(head, ns) && k + 1 < |ns| && cur == ns[k] && cur.next != null
    modifies ns`data
    ensures Linked(head, ns)
    ensures var t := old(DataOf(ns));
            swap == Worse(t[k], t[k + 1]) && DataOf(ns) == if swap then Exchange(t, k) else t
  {
    hide Worse;
    assert cur.next == ns[k + 1];
    swap := Worse(cur.data, cur.next.data);
    if swap {
      SwapData(cur, ns, head, k);
    }
  }

  lemma {:induction false} StableThenSwap(t0: Table, t: Table, k: nat)
    requires Stable(t0, t) && k + 1 < |t| && Worse(t[k], t[k + 1])
    ensures Stable(t0, Exchange(t, k))
  {
    SwapStable(t, k);
  }

  /** The first n entries are in order pairwise. */
  ghost predicate InOrder(t: Table, n: nat) {
    forall j :: 0 <= j < |t| - 1 && j + 1 < n ==> !Worse(t[j], t[j + 1])
  }

  /** One pass of the bubble sort over neighbouring nodes. */
  method BubblePass(head: Node?, ghost ns: seq<Node>) returns (swapped: bool)
    requires Linked(head, ns)
    modifies ns`data
    ensures Linked(head, ns) && Stable(old(DataOf(ns)), DataOf(ns))
    ensures if swapped then Inversions(DataOf(ns)) < Inversions(old(DataOf(ns)))
            else DataOf(ns) == old(DataOf(ns)) && InOrder(DataOf(ns), |ns|)
  {
    ghost var t := DataOf(ns);
    ghost var t0 := t;
    assert Stable(t0, t);
    LinkedStarts(head, ns);
    InOrderStarts(t);
    hide *;
    swapped := false;
    var cur := head;
    ghost var k: nat := 0;
    while cur != null && cur.next != null
      invariant Linked(head, ns) && DataOf(ns) == t && Stable(t0, t)
      invariant k <= |ns| && cur == At(ns, k)
      invariant if swapped then Inversions(t) < Inversions(t0) else t == t0 && InOrder(t, k + 1)
      decreases |ns| - k
    {
      AtMeans(ns, k);
      LinkedNext(head, ns, k);
      AtMeans(ns, k + 1);
      var swap := CompareAndSwap(cur, ns, head, k);
      if swap {
        StableThenSwap(t0, t, k);
        SwapInversions(t, k);
        t := Exchange(t, k);
        swapped := true;
      } else if !swapped {
        InOrderNext(t, k);
      }
      LinkedNext(head, ns, k);
      cur, k := cur.next, k + 1;
    }
    if cur != null {
      AtMeans(ns, k);
      LinkedNext(head, ns, k);
      AtMeans(ns, k + 1);
    } else {
      AtMeans(ns, k);
    }
    if !swapped {
      InOrderEnds(t, k);
    }
  }

  lemma {:induction false} InOrderStarts(t: Table)
    ensures InOrder(t, 1)
  {
  }

  lemma {:induction false} InOrderNext(t: Table, k: nat)
    requires k + 1 < |t| && InOrder(t, k + 1) && !Worse(t[k], t[k + 1])
    ensures InOrder(t, k + 2)
  {
  }

  lemma {:induction false} InOrderEnds(t: Table, k: nat)
    requires InOrder(t, k + 1) && |t| <= k + 1
    ensures InOrder(t, |t|)
  {
  }

  lemma {:induction false} StableTransitive(t: Table, u: Table, v: Table)
    requires Stable(t, u) && Stable(u, v)
    ensures Stable(t, v)
  {
    forall e
      ensures Rank(t, e) == Rank(v, e)
    {
      assert Rank(t, e) == Rank(u, e);
    }
  }

  /** Bubble sort of the table by exchanging the data of neighbouring nodes. */
  method SortTable(head: Node?, ghost ns: seq<Node>)
    requires Linked(head, ns)
    modifies ns`data
    ensures Linked(head, ns)
    ensures Sorted(DataOf(ns)) && Stable(old(DataOf(ns)), DataOf(ns))
  {
    ghost var t := DataOf(ns);
    ghost var t0 := t;
    var swapped := true;
    while swapped
      invariant Linked(head, ns) && DataOf(ns) == t && Stable(t0, t)
      invariant !swapped ==> InOrder(t, |t|)
      decreases Inversions(t), swapped
    {
      hide Stable, Inversions, Linked, InOrder;
      swapped := BubblePass(head, ns);
      StableTransitive(t0, t, DataOf(ns));
      t := DataOf(ns);
    }
    forall i, j | 0 <= i < j < |t|
      ensures !Worse(t[i], t[j])
    {
      NeighboursSorted(t, i, j);
    }
  }

  // ----- one round of the Dijkstra thread

  /** The dynamic entries a router computes; None when the assertion on the next router fails. */
  ghost function Dynamics(db: Database, s: Labels, us: nat, ifs: seq<Iface>): (t: Option<Table>)
    requires Ready(db, s, us)
    ensures t.Some? ==> forall e :: e in t.value ==> !e.isStatic
  {
    var ws := Build(db, s, us, |db|);
    Entries(ws, ifs, |ws|)
  }

  /**
   Every advertised prefix on one of our subnets is advertised by us as well, or has a
   reachable advertiser and we hear all our neighbours.
   */
  ghost predicate OwnSubnets(db: Database, us: nat, ifs: seq<Iface>) {
    forall a: nat, p: Prefix, i :: Advertises(db, a, p) && i in ifs && OnSubnet(i, p) ==>
      Advertises(db, us, p) || (ReachablePrefix(db, us, p) && HearsAll(db, us, ifs))
  }

  /** Each router our interfaces link us to is heard on one of them. */
  ghost predicate HearsAll(db: Database, us: nat, ifs: seq<Iface>) {
    forall y: nat :: Edge(db, us, y) ==> exists i :: i in ifs && Hears(i, db[y].routerId)
  }

  lemma {:induction false} GoodSurvives(db: Database, us: nat, ifs: seq<Iface>, w: Wrapper)
    requires WellFormed(db) && GoodWrapper(db, us, w) && OwnSubnets(db, us, ifs)
    ensures Survives(w, ifs)
  {
    hide Advertises, Hears, OnSubnet, ReachablePrefix, PrefixDistance;
    var a: nat :| Advertises(db, a, w.prefix);
    if i :| i in ifs && OnSubnet(i, w.prefix) && !w.direct {
      var y: nat, x: nat :| Edge(db, us, y) && db[y].routerId == w.nextRid && Advertises(db, x, w.prefix)
        && w.distance > 0 && Connected(db, y, x, w.distance - 1);
      assert w.nextRid != 0;
    }
  }

  /** With such subnets the computation succeeds, whatever the labels at its start. */
  lemma {:induction false} RoundSucceeds(db: Database, s: Labels, us: nat, ifs: seq<Iface>)
    requires WellFormed(db) && |db| <= 0xFFFF && us < |db| && Grounded(db, s, us) && OwnSubnets(db, us, ifs)
    ensures var s1 := Solve(db, s, db[us].routerId);
            Ready(db, s1, us) && Dynamics(db, s1, us, ifs).Some?
  {
    var s1 := Solve(db, s, db[us].routerId);
    SolvedIsReady(db, s, us);
    SolveCorrect(db, s, us);
    SolvedFits(db, s1, us);
    BuildCorrect(db, s1, us);
    var ws := Build(db, s1, us, |db|);
    hide Survives, OwnSubnets, GoodWrapper, Solve, Build, Ready, Entries, Solved, Fits;
    forall j | 0 <= j < |ws|
      ensures Survives(ws[j], ifs)
    {
      GoodSurvives(db, us, ifs, ws[j]);
    }
    EntriesSurvive(ws, ifs, |ws|);
  }

  /** Every advertised prefix on one of our subnets is advertised by us as well. */
  ghost predicate AllOurs(db: Database, us: nat, ifs: seq<Iface>) {
    forall a: nat, p: Prefix, i :: Advertises(db, a, p) && i in ifs && OnSubnet(i, p) ==> Advertises(db, us, p)
  }

  /** The same interfaces, whatever neighbours are heard on them. */
  predicate SameSubnets(ifs: seq<Iface>, js: seq<Iface>) {
    |js| == |ifs| && forall k :: 0 <= k < |ifs| ==> js[k].ip == ifs[k].ip && js[k].mask == ifs[k].mask
  }

  predicate HearsNobody(ifs: seq<Iface>) {
    forall i :: i in ifs ==> i.neighbours == []
  }

  /** While nobody is heard, a prefix on one of our subnets that only others advertise makes the assertion fail. */
  lemma {:induction false} DeafRoundFails(db: Database, s: Labels, us: nat, ifs: seq<Iface>, a: nat, p: Prefix, i: Iface)
    requires WellFormed(db) && |db| <= 0xFFFF && us < |db| && Grounded(db, s, us) && HearsNobody(ifs)
    requires Advertises(db, a, p) && i in ifs && OnSubnet(i, p) && !Advertises(db, us, p)
    ensures var s1 := Solve(db, s, db[us].routerId);
            Ready(db, s1, us) && Dynamics(db, s1, us, ifs).None?
  {
    var s1 := Solve(db, s, db[us].routerId);
    SolvedIsReady(db, s, us);
    SolveCorrect(db, s, us);
    SolvedFits(db, s1, us);
    BuildCorrect(db, s1, us);
    var ws := Build(db, s1, us, |db|);
    hide OnSubnet, Solve, Build, Ready, Entries, Solved, Fits, Advertises, ReachablePrefix;
    var w := ws[Find(ws, p)];
    assert GoodWrapper(db, us, w) && !w.direct;
    assert !Survives(w, ifs);
    EntriesSurvive(ws, ifs, |ws|);
  }

  lemma {:induction false} OursAreOwn(db: Database, us: nat, ifs: seq<Iface>, js: seq<Iface>)
    requires AllOurs(db, us, ifs) && SameSubnets(ifs, js)
    ensures OwnSubnets(db, us, js)
  {
    hide Advertises, ReachablePrefix, HearsAll;
    forall a: nat, p: Prefix, j | Advertises(db, a, p) && j in js && OnSubnet(j, p)
      ensures Advertises(db, us, p)
    {
      var k :| 0 <= k < |js| && js[k] == j;
      assert ifs[k] in ifs && OnSubnet(ifs[k], p);
    }
  }

  /** The computation succeeds whatever neighbours are heard, exactly when our subnets' prefixes are all ours. */
  lemma {:induction false} SucceedsExactly(db: Database, s: Labels, us: nat, ifs: seq<Iface>)
    requires WellFormed(db) && |db| <= 0xFFFF && us < |db| && Grounded(db, s, us)
    ensures Ready(db, Solve(db, s, db[us].routerId), us)
    ensures (forall js {:trigger SameSubnets(ifs, js)} :: SameSubnets(ifs, js) ==>
               Dynamics(db, Solve(db, s, db[us].routerId), us, js).Some?)
            <==> AllOurs(db, us, ifs)
  {
    SolvedIsReady(db, s, us);
    hide Solve, Ready, Dynamics, Advertises, OwnSubnets, Grounded, WellFormed;
    if AllOurs(db, us, ifs) {
      forall js | SameSubnets(ifs, js)
        ensures Dynamics(db, Solve(db, s, db[us].routerId), us, js).Some?
      {
        OursAreOwn(db, us, ifs, js);
        RoundSucceeds(db, s, us, js);
      }
    } else {
      var a: nat, p, i :| Advertises(db, a, p) && i in ifs && OnSubnet(i, p) && !Advertises(db, us, p);
      var k :| 0 <= k < |ifs| && ifs[k] == i;
      var js := seq(|ifs|, j requires 0 <= j < |ifs| => ifs[j].(neighbours := []));
      assert SameSubnets(ifs, js) && js[k] in js;
      DeafRoundFails(db, s, us, js, a, p, js[k]);
    }
  }

  /** A database at which the assertion fails: router 2 has announced our subnet, and has fallen silent. */
  lemma {:induction false} AssertionFails(s: Labels)
    requires |s| == 2 && s[0].prev == s[1].prev == 0
    ensures var db := [Lsa(1, []), Lsa(2, [Interface(0, 0, 0, true)])];
            var s1 := Solve(db, s, 1);
            Ready(db, s1, 0) && Dynamics(db, s1, 0, [Iface("eth0", 0, 0, [])]).None?
  {
    var db := [Lsa(1, []), Lsa(2, [Interface(0, 0, 0, true)])];
    var p := Prefix(0, 0);
    assert And(0, 0) == 0;
    assert AdvertisesAt(db, 1, 0, p);
    assert db[0].routerId == 1;
    DeafRoundFails(db, s, 0, [Iface("eth0", 0, 0, [])], 1, p, Iface("eth0", 0, 0, []));
  }

  /** What a round needs: ids unique and non-zero, our own record listed, chains leading back to us. */
  ghost predicate Runnable(routers: seq<Router>, rid: Uint32)
    reads routers
  {
    && Listed(routers) && WellFormed(DatabaseOf(routers)) && |routers| <= INFINITY
    && IndexOf(DatabaseOf(routers), rid) < |routers|
    && Grounded(DatabaseOf(routers), LabelsOf(routers), IndexOf(DatabaseOf(routers), rid))
  }

  lemma {:induction false} SolvedIsReady(db: Database, s: Labels, us: nat)
    requires WellFormed(db) && |db| <= INFINITY && us < |db| && Grounded(db, s, us)
    ensures Ready(db, Solve(db, s, db[us].routerId), us)
  {
    SolveCorrect(db, s, us);
    SolveKeepsGrounded(db, s, us);
  }

  /** The dynamic routing table of router rid; ok == false stands for the failed assertion. */
  method ComputeRtable(rid: Uint32, routers: seq<Router>, ifs: seq<Iface>)
    returns (ok: bool, head: Node?, ghost ns: seq<Node>)
    requires Runnable(routers, rid)
    modifies routers`distance, routers`shortestPathFound, routers`prevRouter
    ensures Runnable(routers, rid) && fresh(ns)
    ensures DatabaseOf(routers) == old(DatabaseOf(routers))
    ensures LabelsOf(routers) == Solve(DatabaseOf(routers), old(LabelsOf(routers)), rid)
    ensures var us := IndexOf(DatabaseOf(routers), rid);
            && Ready(DatabaseOf(routers), LabelsOf(routers), us)
            && var t := Dynamics(DatabaseOf(routers), LabelsOf(routers), us, ifs);
            && (ok <==> t.Some?)
            && (ok ==> Linked(head, ns) && DataOf(ns) == t.value)
  {
    ghost var db, s := DatabaseOf(routers), LabelsOf(routers);
    ghost var us := IndexOf(db, rid);
    SolvedIsReady(db, s, us);
    assert db[us].routerId == routers[us].routerId == rid;
    hide Linked, Solve, Build, Entries, Grounded, Survives, WellFormed, Listed, Ready, DatabaseOf, LabelsOf, IndexOf;
    ComputeDistances(rid, routers);
    var ws := BuildRouteWrapperList(rid, routers, us);
    ok, head, ns := BuildRouteList(ws, ifs);
  }

  /** Which entries the sweep keeps. */
  function Marks(t: Table): (ms: seq<bool>)
    ensures |ms| == |t| && forall i :: 0 <= i < |t| ==> ms[i] == t[i].isStatic
  {
    seq(|t|, i requires 0 <= i < |t| => t[i].isStatic)
  }

  lemma {:induction false} StaticsKept(t: Table)
    ensures Keep(t, Marks(t)) == Statics(t)
  {
    if t != [] {
      StaticsKept(t[1..]);
      assert Marks(t)[1..] == Marks(t[1..]);
    }
  }

  /** i entries have been looked at, and cur is the next one. */
  ghost predicate Sweeping(t: Table, i: nat, h: Node?, ms: seq<Node>, cur: Node?)
    requires i <= |t|
    reads ms
  {
    Linked(h, ms) && DataOf(ms) == Swept(t, Marks(t)[..i]) && cur == At(ms, Kept(t, Marks(t)[..i]))
  }

  /** Looks at node cur, entry i of table t: a dynamic one is unlinked. The successor is read first. */
  method SweepOne(head: Node?, cur: Node, ghost ns: seq<Node>, ghost t: Table, ghost i: nat, ghost foot: set<Node>)
    returns (h: Node?, next: Node?, ghost ms: seq<Node>)
    requires i < |t| && Sweeping(t, i, head, ns, cur)
    requires forall n :: n in ns ==> n in foot
    modifies foot`next, foot`prev
    ensures Sweeping(t, i + 1, h, ms, next)
    ensures forall n :: n in ms ==> n in foot
  {
    ghost var k := Kept(t, Marks(t)[..i]);
    assert Marks(t)[..i + 1] == Marks(t)[..i] + [t[i].isStatic];
    SweepStep(t, Marks(t)[..i], t[i].isStatic);
    assert ns[k] == cur && cur.next == At(ns, k + 1) && cur.data == t[i];
    hide Swept, Kept, Linked, Marks;
    h, ms, next := head, ns, cur.next;
    if !cur.data.isStatic {
      h, ms := Unlink(head, cur, ns, k, foot);
      assert next == At(ms, k);
    }
  }

  /** Removal of one node, in terms of the data. */
  method Unlink(head: Node?, n: Node, ghost ns: seq<Node>, ghost k: nat, ghost foot: set<Node>)
    returns (h: Node?, ghost ms: seq<Node>)
    requires Linked(head, ns) && k < |ns| && ns[k] == n
    requires forall m :: m in ns ==> m in foot
    modifies foot`next, foot`prev
    ensures ms == ns[..k] + ns[k + 1..] && Linked(h, ms)
    ensures DataOf(ms) == old(DataOf(ns))[..k] + old(DataOf(ns))[k + 1..]
    ensures forall m :: m in ms ==> m in foot
  {
    assert head != null;
    hide *;
    ghost var t := DataOf(ns);
    h := Remove(head, n, ns, k);
    ms := ns[..k] + ns[k + 1..];
    assert DataOf(ns) == t;
    DataWithout(ns, k);
  }

  /** Unlinks every dynamic entry of the list. */
  method RemoveDynamic(head: Node?, ghost ns: seq<Node>) returns (h: Node?, ghost ms: seq<Node>)
    requires Linked(head, ns)
    modifies ns`next, ns`prev
    ensures Linked(h, ms) && DataOf(ms) == Statics(old(DataOf(ns)))
    ensures forall n :: n in ms ==> n in ns
  {
    ghost var t := DataOf(ns);
    ghost var foot := set n | n in ns;
    ghost var i := 0;
    h, ms := head, ns;
    var cur := head;
    SweepBegins(t, h, ms);
    hide *;
    while cur != null
      invariant 0 <= i <= |t| && Sweeping(t, i, h, ms, cur)
      invariant forall n :: n in ms ==> n in foot
      decreases |t| - i
    {
      SweepGoesOn(t, i, h, ms, cur);
      h, cur, ms := SweepOne(h, cur, ms, t, i, foot);
      i := i + 1;
    }
    SweepDone(t, i, h, ms);
  }

  lemma {:induction false} SweepBegins(t: Table, h: Node?, ms: seq<Node>)
    requires Linked(h, ms) && DataOf(ms) == t
    ensures Sweeping(t, 0, h, ms, h)
  {
    SweepStart(t);
    assert Marks(t)[..0] == [];
  }

  lemma {:induction false} SweepGoesOn(t: Table, i: nat, h: Node?, ms: seq<Node>, cur: Node)
    requires i <= |t| && Sweeping(t, i, h, ms, cur)
    ensures i < |t|
  {
    assert Kept(t, Marks(t)[..i]) < |Swept(t, Marks(t)[..i])|;
  }

  lemma {:induction false} SweepDone(t: Table, i: nat, h: Node?, ms: seq<Node>)
    requires i <= |t| && Sweeping(t, i, h, ms, null)
    ensures Linked(h, ms) && DataOf(ms) == Statics(t)
  {
    SweepEnd(t, Marks(t)[..i]);
    assert Marks(t)[..i] == Marks(t);
    StaticsKept(t);
  }

  /** Patches the dynamic entries on to the end and sorts. */
  method Install(head: Node?, ghost ns: seq<Node>, tail: Node?, ghost ts: seq<Node>, ghost foot: set<Node>)
    returns (h: Node?, ghost ms: seq<Node>)
    requires Linked(head, ns) && Linked(tail, ts)
    requires forall n :: n in ns ==> n !in ts && n in foot
    requires forall n :: n in ts ==> n in foot
    modifies foot
    ensures ms == ns + ts && Linked(h, ms) && Sorted(DataOf(ms))
    ensures Stable(old(DataOf(ns)) + old(DataOf(ts)), DataOf(ms))
  {
    ghost var t := DataOf(ns) + DataOf(ts);
    ms := ns + ts;
    assert DataOf(ms) == t;
    forall i, j | 0 <= i < j < |ms|
      ensures ms[i] != ms[j]
    {
      assert i < |ns| ==> ms[i] in ns;
      assert j >= |ns| ==> ms[j] == ts[j - |ns|];
    }
    h := Splice(head, ns, tail, ts);
    assert DataOf(ms) == t;
    SortTable(h, ms);
  }

  /** The round's effect on a table t, for the labels s it leaves behind. */
  ghost predicate RoundResult(db: Database, s: Labels, us: nat, ifs: seq<Iface>, t: Table, u: Table)
    requires Ready(db, s, us)
  {
    var dynamics := Dynamics(db, s, us, ifs);
    dynamics.Some? && Rebuilt(t, dynamics.value, u)
  }

  /** Changes to list nodes do not touch the router records. */
  twostate lemma RecordsUnchanged(routers: seq<Router>)
    requires forall i :: 0 <= i < |routers| ==> unchanged(routers[i])
    ensures DatabaseOf(routers) == old(DatabaseOf(routers)) && Listed(routers) == old(Listed(routers))
    ensures Listed(routers) ==> LabelsOf(routers) == old(LabelsOf(routers))
  {
  }

  /** First half of the round: drop the dynamic entries, compute the new ones. */
  method Recompute(rid: Uint32, routers: seq<Router>, ifs: seq<Iface>, head: Node?, ghost ns: seq<Node>)
    returns (ok: bool, h: Node?, ghost ms: seq<Node>, tail: Node?, ghost ts: seq<Node>)
    requires Linked(head, ns) && Runnable(routers, rid)
    modifies ns`next, ns`prev, routers`distance, routers`shortestPathFound, routers`prevRouter
    ensures Runnable(routers, rid) && DatabaseOf(routers) == old(DatabaseOf(routers))
    ensures LabelsOf(routers) == Solve(DatabaseOf(routers), old(LabelsOf(routers)), rid)
    ensures Linked(h, ms) && DataOf(ms) == Statics(old(DataOf(ns)))
    ensures fresh(ts) && forall n :: n in ms ==> n in ns && n !in ts
    ensures var us := IndexOf(DatabaseOf(routers), rid);
            && Ready(DatabaseOf(routers), LabelsOf(routers), us)
            && var t := Dynamics(DatabaseOf(routers), LabelsOf(routers), us, ifs);
            && (ok <==> t.Some?)
            && (ok ==> Linked(tail, ts) && DataOf(ts) == t.value)
  {
    h, ms := RemoveDynamic(head, ns);
    RecordsUnchanged(routers);
    hide Statics, Dynamics, Linked, Solve, Ready, Grounded, WellFormed, DatabaseOf, LabelsOf, Listed;
    ok, tail, ts := ComputeRtable(rid, routers, ifs);
  }

  /** The round on the list itself. */
  method Rebuild(rid: Uint32, routers: seq<Router>, ifs: seq<Iface>, head: Node?, ghost ns: seq<Node>)
    returns (ok: bool, h: Node?, ghost ms: seq<Node>)
    requires Linked(head, ns) && Runnable(routers, rid)
    modifies ns, routers`distance, routers`shortestPathFound, routers`prevRouter
    ensures Runnable(routers, rid) && DatabaseOf(routers) == old(DatabaseOf(routers))
    ensures LabelsOf(routers) == Solve(DatabaseOf(routers), old(LabelsOf(routers)), rid)
    ensures var us := IndexOf(DatabaseOf(routers), rid);
            && Ready(DatabaseOf(routers), LabelsOf(routers), us)
            && (ok <==> Dynamics(DatabaseOf(routers), LabelsOf(routers), us, ifs).Some?)
            && (ok ==> Linked(h, ms))
            && (ok ==> RoundResult(DatabaseOf(routers), LabelsOf(routers), us, ifs, old(DataOf(ns)), DataOf(ms)))
  {
    hide Sorted, Stable, Statics, Dynamics, Linked, Solve, Ready, Grounded, WellFormed, DatabaseOf, LabelsOf, Listed;
    var tail;
    ghost var ts;
    ok, h, ms, tail, ts := Recompute(rid, routers, ifs, head, ns);
    if ok {
      label Computed:
      ghost var foot := (set n | n in ns) + (set n | n in ts);
      h, ms := Install(h, ms, tail, ts, foot);
      RecordsUnchanged@Computed(routers);
    }
  }

  lemma {:induction false} RunnableSucceeds(routers: seq<Router>, rid: Uint32, ifs: seq<Iface>)
    requires Runnable(routers, rid)
    ensures var db, us := DatabaseOf(routers), IndexOf(DatabaseOf(routers), rid);
            var s1 := Solve(db, LabelsOf(routers), rid);
            && Ready(db, s1, us)
            && (|routers| <= 0xFFFF && OwnSubnets(db, us, ifs) ==> Dynamics(db, s1, us, ifs).Some?)
  {
    hide OwnSubnets, Solve, Ready, Dynamics;
    var db, s, us := DatabaseOf(routers), LabelsOf(routers), IndexOf(DatabaseOf(routers), rid);
    SolvedIsReady(db, s, us);
    if |routers| <= 0xFFFF && OwnSubnets(db, us, ifs) {
      RoundSucceeds(db, s, us, ifs);
    }
  }

  class RouterState {
    const routerId: Uint32
    const routers: seq<Router>
    var rtable: Node?
    ghost var nodes: seq<Node>
    var ifList: seq<Iface>

    constructor (routerId: Uint32, routers: seq<Router>, ifList: seq<Iface>)
      ensures this.routerId == routerId && this.routers == routers && this.ifList == ifList
      ensures rtable == null && nodes == []
    {
      this.routerId, this.routers, this.ifList := routerId, routers, ifList;
      rtable, nodes := null, [];
    }

    /** Our position in the router list. */
    ghost function Us(): nat
      reads routers
    {
      IndexOf(DatabaseOf(routers), routerId)
    }

    /**
     Static entries stay, dynamic ones are replaced by what the computation yields, and
     the table is left sorted and linked in both directions.
     */
    method DijkstraRound() returns (ok: bool)
      requires Linked(rtable, nodes) && Runnable(routers, routerId)
      modifies this`rtable, this`nodes, nodes, routers`distance, routers`shortestPathFound, routers`prevRouter
      ensures Runnable(routers, routerId) && DatabaseOf(routers) == old(DatabaseOf(routers))
      ensures LabelsOf(routers) == Solve(DatabaseOf(routers), old(LabelsOf(routers)), routerId)
      ensures Ready(DatabaseOf(routers), LabelsOf(routers), Us())
      ensures ok <==> Dynamics(DatabaseOf(routers), LabelsOf(routers), Us(), ifList).Some?
      ensures |routers| <= 0xFFFF && OwnSubnets(DatabaseOf(routers), Us(), ifList) ==> ok
      ensures ok ==> Linked(rtable, nodes)
      ensures ok ==> RoundResult(DatabaseOf(routers), LabelsOf(routers), Us(), ifList, old(DataOf(nodes)), DataOf(nodes))
    {
      hide Ready, RoundResult, Dynamics, Linked, Solve, DatabaseOf, LabelsOf, DataOf, OwnSubnets;
      RunnableSucceeds(routers, routerId, ifList);
      hide Runnable, Listed, WellFormed, Grounded;
      ok, rtable, nodes := Rebuild(routerId, routers, ifList, rtable, nodes);
    }
  }

  /**
   Rebuild keeps statics: the static entries of the new table are those of the old one,
   rank by rank in the old order, and exactly the old sequence when that was sorted.
   */
  lemma {:induction false} RoundKeepsStatics(db: Database, s: Labels, us: nat, ifs: seq<Iface>, t: Table, u: Table)
    requires Ready(db, s, us) && RoundResult(db, s, us, ifs, t, u)
    ensures Sorted(u) && Stable(Statics(t), Statics(u))
    ensures Statics(u) == Statics(t) <==> Sorted(Statics(t))
  {
    RebuiltStatics(t, Dynamics(db, s, us, ifs).value, u);
  }

  lemma {:induction false} RankHas(t: Table, e: RouteEntry)
    ensures e in Rank(t, e) <==> e in t
  {
    if t != [] {
      RankHas(t[1..], e);
    }
  }

  /**
   The dynamic entries a round leaves are the routes of the wrappers built from these labels:
   each is the route of one, and each wrapper that leaves by some interface has one.
   */
  lemma {:induction false} RoundRoutes(db: Database, s: Labels, us: nat, ifs: seq<Iface>, t: Table, u: Table)
    requires Ready(db, s, us) && RoundResult(db, s, us, ifs, t, u)
    ensures var ws := Build(db, s, us, |db|);
            && (forall e :: e in u && !e.isStatic ==> exists w :: w in ws && RouteFor(e, w, ifs))
            && (forall w, k: nat :: w in ws && LeavesBy(w, ifs, k) ==> exists e :: e in u && RouteFor(e, w, ifs))
  {
    hide Build, LeavesBy, RouteFor, Entries;
    var ws := Build(db, s, us, |db|);
    var d := Dynamics(db, s, us, ifs).value;
    var at := EntriesAreRoutes(ws, ifs, |ws|);
    assert ws[..|ws|] == ws;
    forall e
      ensures e in Statics(t) + d <==> e in u
    {
      RankHas(Statics(t) + d, e);
      RankHas(u, e);
      assert Rank(Statics(t) + d, e) == Rank(u, e);
    }
    forall e | e in u && !e.isStatic
      ensures exists w :: w in ws && RouteFor(e, w, ifs)
    {
      StaticsAre(t, e);
      var i :| 0 <= i < |d| && d[i] == e;
      assert ws[at[i]] in ws;
    }
    forall w, k: nat | w in ws && LeavesBy(w, ifs, k)
      ensures exists e :: e in u && RouteFor(e, w, ifs)
    {
      var j: nat :| j < |ws| && ws[j] == w;
      assert j in at;
      var i :| 0 <= i < |at| && at[i] == j;
      assert d[i] in u;
    }
  }

  lemma {:induction false} StaticsAre(t: Table, e: RouteEntry)
    ensures e in Statics(t) <==> e in t && e.isStatic
  {
    if t != [] {
      StaticsAre(t[1..], e);
    }
  }

  /** A second round on an unchanged database and interface list leaves the table as it is. */
  lemma {:induction false} SecondRoundChangesNothing(db: Database, s: Labels, us: nat, ifs: seq<Iface>,
      t: Table, u: Table, v: Table)
    requires WellFormed(db) && |db| <= INFINITY && us < |db| && Grounded(db, s, us)
    requires var s1 := Solve(db, s, db[us].routerId);
             Ready(db, s1, us) && RoundResult(db, s1, us, ifs, t, u)
    requires var s2 := Solve(db, Solve(db, s, db[us].routerId), db[us].routerId);
             Ready(db, s2, us) && RoundResult(db, s2, us, ifs, u, v)
    ensures v == u
  {
    SolveIdempotent(db, s, us);
    RebuiltTwice(t, Dynamics(db, Solve(db, s, db[us].routerId), us, ifs).value, u, v);
  }
}
