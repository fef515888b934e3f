/**
 Route construction: one wrapper per advertised prefix, taken from the closest router
 that advertises it, together with the first hop towards that router.
 */
module RouteWrappers {
  import opened Words
  import opened LinkState
  import opened ShortestPaths
  import opened PrevChains

  datatype Prefix = Prefix(ip: Uint32, mask: Uint32)
  datatype Wrapper = Wrapper(prefix: Prefix, distance: Uint16, nextRid: Uint32, direct: bool)

  function PrefixOf(i: Interface): Prefix {
    Prefix(And(i.subnet, i.mask), i.mask)
  }

  /** Position of the first wrapper for prefix p, or |ws|. */
  function Find(ws: seq<Wrapper>, p: Prefix): (k: nat)
    ensures k <= |ws|
    ensures k < |ws| ==> ws[k].prefix == p
    ensures forall j :: 0 <= j < k ==> ws[j].prefix != p
  {
    if ws == [] || ws[0].prefix == p then 0 else 1 + Find(ws[1..], p)
  }

  /** What route construction needs of the labels it reads. */
  ghost predicate Ready(db: Database, s: Labels, us: nat) {
    Grounded(db, s, us) && us < |db| && s[us].distance == 0
  }

  /** Next router for a route learned from interface i of router r. */
  ghost function NextRid(db: Database, s: Labels, us: nat, r: nat, i: Interface): Uint32
    requires Ready(db, s, us) && r < |db|
  {
    if s[r].prev == 0 then i.routerId
    else
      assert LeadsBack(db, s, us, r);
      db[FirstHop(db, s, us, r)].routerId
  }

  /** Effect of one offer: a prefix at a distance, through `next`, possibly our own. */
  function Offer(ws: seq<Wrapper>, p: Prefix, distance: Uint32, next: Uint32, ours: bool): seq<Wrapper> {
    var k := Find(ws, p);
    if k == |ws| then ws + [Wrapper(p, distance % 0x1_0000, next, ours)]
    else if distance >= ws[k].distance then ws
    else ws[k := Wrapper(p, distance, next, ws[k].direct || ours)]
  }

  /** Effect of interface i of router r on the wrapper list. */
  ghost function Add(db: Database, s: Labels, us: nat, ws: seq<Wrapper>, r: nat, i: Interface): seq<Wrapper>
    requires Ready(db, s, us) && r < |db|
  {
    Offer(ws, PrefixOf(i), s[r].distance, NextRid(db, s, us, r, i), db[r].routerId == db[us].routerId)
  }

  /** Effect of the first j interfaces of router r. */
  ghost function AddRouter(db: Database, s: Labels, us: nat, ws: seq<Wrapper>, r: nat, j: nat): seq<Wrapper>
    requires Ready(db, s, us) && r < |db| && j <= |db[r].interfaces|
    decreases j
  {
    if j == 0 then ws
    else Add(db, s, us, AddRouter(db, s, us, ws, r, j - 1), r, db[r].interfaces[j - 1])
  }

  /** The wrapper list after the first n routers. */
  ghost function Build(db: Database, s: Labels, us: nat, n: nat): seq<Wrapper>
    requires Ready(db, s, us) && n <= |db|
    decreases n
  {
    if n == 0 then []
    else AddRouter(db, s, us, Build(db, s, us, n - 1), n - 1, |db[n - 1].interfaces|)
  }

  // ----- what the wrapper list is for

  predicate AdvertisesAt(db: Database, a: nat, b: nat, p: Prefix) {
    a < |db| && b < |db[a].interfaces| && PrefixOf(db[a].interfaces[b]) == p
  }

  ghost predicate Advertises(db: Database, a: nat, p: Prefix) {
    exists b: nat :: AdvertisesAt(db, a, b, p)
  }

  /** d is the least number of hops from u to a router that advertises p. */
  ghost predicate PrefixDistance(db: Database, u: nat, p: Prefix, d: nat) {
    && (exists a: nat :: Advertises(db, a, p) && Connected(db, u, a, d))
    && (forall a: nat, h: nat :: Advertises(db, a, p) && Connected(db, u, a, h) ==> d <= h)
  }

  ghost predicate ReachablePrefix(db: Database, u: nat, p: Prefix) {
    exists a: nat :: Advertises(db, a, p) && Reachable(db, u, a)
  }

  /** `next` names a neighbour of u that is one hop closer to an advertiser of p. */
  ghost predicate CloserNeighbour(db: Database, u: nat, p: Prefix, d: nat, next: Uint32) {
    exists y: nat, a: nat :: Edge(db, u, y) && db[y].routerId == next && Advertises(db, a, p)
      && d > 0 && Connected(db, y, a, d - 1)
  }

  /** What each single wrapper promises. */
  ghost predicate GoodWrapper(db: Database, us: nat, w: Wrapper) {
    && (exists a: nat :: Advertises(db, a, w.prefix))
    && (w.direct <==> Advertises(db, us, w.prefix))
    && (ReachablePrefix(db, us, w.prefix) ==>
          && PrefixDistance(db, us, w.prefix, w.distance)
          && (!w.direct ==> CloserNeighbour(db, us, w.prefix, w.distance, w.nextRid)))
  }

  /** The list as a whole: exactly one good wrapper per advertised prefix. */
  ghost predicate GoodWrappers(db: Database, us: nat, ws: seq<Wrapper>) {
    && (forall j, k :: 0 <= j < k < |ws| ==> ws[j].prefix != ws[k].prefix)
    && (forall a: nat, p: Prefix :: Advertises(db, a, p) ==> Find(ws, p) < |ws|)
    && (forall k :: 0 <= k < |ws| ==> GoodWrapper(db, us, ws[k]))
  }

  // ----- the construction keeps its promises

  /** Interface b of router a comes before interface j of router r. */
  predicate Before(db: Database, a: nat, b: nat, r: nat, j: nat) {
    a < |db| && b < |db[a].interfaces| && (a < r || (a == r && b < j))
  }

  /** Wrapper w carries what interface b of router a offers. */
  ghost predicate From(db: Database, s: Labels, us: nat, w: Wrapper, a: nat, b: nat)
    requires Ready(db, s, us)
  {
    && AdvertisesAt(db, a, b, w.prefix)
    && w.distance == s[a].distance % 0x1_0000
    && w.nextRid == NextRid(db, s, us, a, db[a].interfaces[b])
  }

  /** Distances of reached routers fit the wrapper's 16-bit field, and only ours is 0. */
  ghost predicate Fits(s: Labels, us: nat) {
    forall v: nat :: v < |s| ==>
      && (s[v].distance < 0xFFFF || s[v].distance == INFINITY)
      && (s[v].distance == 0 ==> v == us)
  }

  ghost predicate Origin(db: Database, s: Labels, us: nat, w: Wrapper, r: nat, j: nat)
    requires Ready(db, s, us)
  {
    && (exists a: nat, b: nat :: Before(db, a, b, r, j) && From(db, s, us, w, a, b))
    && (w.direct <==> exists b: nat :: Before(db, us, b, r, j) && AdvertisesAt(db, us, b, w.prefix))
  }

  ghost predicate Covered(s: Labels, us: nat, ws: seq<Wrapper>, a: nat, p: Prefix)
    requires a < |s|
  {
    var k := Find(ws, p);
    k < |ws| && ws[k].distance <= s[a].distance
  }

  /** Invariant of the construction when interface j of router r is next. */
  ghost predicate Partial(db: Database, s: Labels, us: nat, ws: seq<Wrapper>, r: nat, j: nat)
    requires Ready(db, s, us)
  {
    && (forall m, k :: 0 <= m < k < |ws| ==> ws[m].prefix != ws[k].prefix)
    && (forall k {:trigger Origin(db, s, us, ws[k], r, j)} :: 0 <= k < |ws| ==> Origin(db, s, us, ws[k], r, j))
    && (forall a: nat, b: nat :: Before(db, a, b, r, j) ==> Covered(s, us, ws, a, PrefixOf(db[a].interfaces[b])))
  }

  lemma {:induction false} FindOnly(ws: seq<Wrapper>, k: nat)
    requires k < |ws| && forall j, m :: 0 <= j < m < |ws| ==> ws[j].prefix != ws[m].prefix
    ensures Find(ws, ws[k].prefix) == k
  {
  }

  /** Lookups after the wrapper at k was replaced by one for the same prefix, or one was appended. */
  lemma {:induction false} FindAfter(ws: seq<Wrapper>, vs: seq<Wrapper>, p: Prefix)
    requires |ws| <= |vs| && forall k :: 0 <= k < |ws| ==> vs[k].prefix == ws[k].prefix
    ensures Find(ws, p) < |ws| ==> Find(vs, p) == Find(ws, p)
  {
    var f, g := Find(ws, p), Find(vs, p);
    assert f < |ws| ==> vs[f].prefix == p;
    assert g < |ws| ==> ws[g].prefix == vs[g].prefix;
  }

  lemma {:induction false} OriginGrows(db: Database, s: Labels, us: nat, w: Wrapper, r: nat, j: nat)
    requires Ready(db, s, us) && r < |db| && j < |db[r].interfaces| && Origin(db, s, us, w, r, j)
    requires PrefixOf(db[r].interfaces[j]) == w.prefix && r == us ==> w.direct
    ensures Origin(db, s, us, w, r, j + 1)
  {
    var a: nat, b: nat :| Before(db, a, b, r, j) && From(db, s, us, w, a, b);
    assert Before(db, a, b, r, j + 1);
    if w.direct {
      var c: nat :| Before(db, us, c, r, j) && AdvertisesAt(db, us, c, w.prefix);
      assert Before(db, us, c, r, j + 1);
    } else {
      forall c: nat | Before(db, us, c, r, j + 1) && AdvertisesAt(db, us, c, w.prefix)
        ensures Before(db, us, c, r, j)
      {}
    }
  }

  /** The new list is the old one with at most one wrapper appended or lowered. */
  lemma {:induction false} AddKeepsOrigins(db: Database, s: Labels, us: nat, ws: seq<Wrapper>, r: nat, j: nat)
    requires WellFormed(db) && Ready(db, s, us) && Fits(s, us)
    requires r < |db| && j < |db[r].interfaces| && Partial(db, s, us, ws, r, j)
    ensures var vs := Add(db, s, us, ws, r, db[r].interfaces[j]);
            forall k :: 0 <= k < |vs| ==> Origin(db, s, us, vs[k], r, j + 1)
  {
    var i := db[r].interfaces[j];
    var p := PrefixOf(i);
    var f := Find(ws, p);
    var vs := Add(db, s, us, ws, r, i);
    IndexOfSelf(db, us);
    IndexOfSelf(db, r);
    forall k: nat | k < |vs|
      ensures Origin(db, s, us, vs[k], r, j + 1)
    {
      if k < |ws| && vs[k] == ws[k] {
        assert Origin(db, s, us, ws[k], r, j);
        if k == f && r == us {
          ZeroIsOurs(db, s, us, ws[k], r, j);
        }
        OriginGrows(db, s, us, ws[k], r, j);
      } else {
        assert k == f && From(db, s, us, vs[k], r, j) && Before(db, r, j, r, j + 1);
        NewOrigin(db, s, us, ws, vs[k], r, j);
      }
    }
  }

  /** A wrapper of distance 0 came from us and is marked as directly connected. */
  lemma {:induction false} ZeroIsOurs(db: Database, s: Labels, us: nat, w: Wrapper, r: nat, j: nat)
    requires Ready(db, s, us) && Fits(s, us) && Origin(db, s, us, w, r, j)
    ensures w.distance == 0 ==> w.direct
  {
    hide NextRid, AdvertisesAt;
    var a: nat, b: nat :| Before(db, a, b, r, j) && From(db, s, us, w, a, b);
  }

  /** The mark of an appended or lowered wrapper. */
  lemma {:induction false} NewOrigin(db: Database, s: Labels, us: nat, ws: seq<Wrapper>, w: Wrapper, r: nat, j: nat)
    requires WellFormed(db) && Ready(db, s, us) && Fits(s, us)
    requires r < |db| && j < |db[r].interfaces| && Partial(db, s, us, ws, r, j)
    requires From(db, s, us, w, r, j)
    requires var k := Find(ws, w.prefix);
             w.direct <==> ((k < |ws| && ws[k].direct) || r == us)
    ensures Origin(db, s, us, w, r, j + 1)
  {
    assert Before(db, r, j, r, j + 1);
    var k := Find(ws, w.prefix);
    if k < |ws| {
      assert Origin(db, s, us, ws[k], r, j);
      if ws[k].direct {
        var c: nat :| Before(db, us, c, r, j) && AdvertisesAt(db, us, c, w.prefix);
        assert Before(db, us, c, r, j + 1);
      }
    }
    if c: nat :| Before(db, us, c, r, j + 1) && AdvertisesAt(db, us, c, w.prefix) {
      if r != us {
        assert Before(db, us, c, r, j);
        assert Covered(s, us, ws, us, PrefixOf(db[us].interfaces[c]));
      }
    }
  }

  /** Prefixes stay distinct, and what was covered stays covered. */
  lemma {:induction false} AddKeepsCover(db: Database, s: Labels, us: nat, ws: seq<Wrapper>, r: nat,
      i: Interface, a: nat, p: Prefix)
    requires Ready(db, s, us) && r < |db| && a < |db|
    requires forall m, k :: 0 <= m < k < |ws| ==> ws[m].prefix != ws[k].prefix
    requires Covered(s, us, ws, a, p) || (a == r && p == PrefixOf(i))
    requires s[r].distance < 0xFFFF || s[r].distance == INFINITY
    ensures var vs := Add(db, s, us, ws, r, i);
            && (forall m, k :: 0 <= m < k < |vs| ==> vs[m].prefix != vs[k].prefix)
            && Covered(s, us, vs, a, p)
  {
    var vs := Add(db, s, us, ws, r, i);
    FindAfter(ws, vs, p);
    var k := Find(ws, p);
    assert k < |ws| ==> vs[k].distance <= ws[k].distance;
    if k == |ws| {
      assert vs == ws + [vs[k]] && vs[k].prefix == p;
      FindOnly(vs, k);
    }
  }

  lemma {:induction false} AddKeepsPartial(db: Database, s: Labels, us: nat, ws: seq<Wrapper>, r: nat, j: nat)
    requires WellFormed(db) && Ready(db, s, us) && Fits(s, us)
    requires r < |db| && j < |db[r].interfaces| && Partial(db, s, us, ws, r, j)
    ensures Partial(db, s, us, Add(db, s, us, ws, r, db[r].interfaces[j]), r, j + 1)
  {
    var i := db[r].interfaces[j];
    var vs := Add(db, s, us, ws, r, i);
    AddKeepsOrigins(db, s, us, ws, r, j);
    AddKeepsCover(db, s, us, ws, r, i, r, PrefixOf(i));
    forall a: nat, b: nat | Before(db, a, b, r, j + 1)
      ensures Covered(s, us, vs, a, PrefixOf(db[a].interfaces[b]))
    {
      assert (a == r && b == j) || Before(db, a, b, r, j);
      AddKeepsCover(db, s, us, ws, r, i, a, PrefixOf(db[a].interfaces[b]));
    }
  }

  lemma {:induction false} RouterKeepsPartial(db: Database, s: Labels, us: nat, ws: seq<Wrapper>, r: nat, j: nat)
    requires WellFormed(db) && Ready(db, s, us) && Fits(s, us)
    requires r < |db| && j <= |db[r].interfaces| && Partial(db, s, us, ws, r, 0)
    ensures Partial(db, s, us, AddRouter(db, s, us, ws, r, j), r, j)
    decreases j
  {
    hide Partial, Add;
    if j > 0 {
      RouterKeepsPartial(db, s, us, ws, r, j - 1);
      AddKeepsPartial(db, s, us, AddRouter(db, s, us, ws, r, j - 1), r, j - 1);
    }
  }

  lemma {:induction false} NextRouter(db: Database, s: Labels, us: nat, ws: seq<Wrapper>, r: nat)
    requires Ready(db, s, us) && r < |db| && Partial(db, s, us, ws, r, |db[r].interfaces|)
    ensures Partial(db, s, us, ws, r + 1, 0)
  {
    var j := |db[r].interfaces|;
    assert forall a: nat, b: nat :: Before(db, a, b, r, j) <==> Before(db, a, b, r + 1, 0);
    forall k: nat | k < |ws|
      ensures Origin(db, s, us, ws[k], r + 1, 0)
    {
      assert Origin(db, s, us, ws[k], r, j);
    }
  }

  lemma {:induction false} BuildPartial(db: Database, s: Labels, us: nat, n: nat)
    requires WellFormed(db) && Ready(db, s, us) && Fits(s, us) && n <= |db|
    ensures Partial(db, s, us, Build(db, s, us, n), n, 0)
    decreases n
  {
    hide AddRouter;
    if n > 0 {
      BuildPartial(db, s, us, n - 1);
      RouterKeepsPartial(db, s, us, Build(db, s, us, n - 1), n - 1, |db[n - 1].interfaces|);
      NextRouter(db, s, us, Build(db, s, us, n), n - 1);
    }
  }

  /** Distances of reached routers fit 16 bits when the list is short enough, and only ours is 0. */
  lemma {:induction false} SolvedFits(db: Database, s: Labels, us: nat)
    requires Solved(db, s, us) && |db| <= 0xFFFF
    ensures Fits(s, us)
  {
    forall v: nat | v < |s| && s[v].distance == 0
      ensures v == us
    {
      assert MinHops(db, us, v, s[v].distance);
    }
  }

  /** A wrapper is no further than any reachable advertiser of its prefix. */
  lemma {:induction false} AdvertiserBound(db: Database, s: Labels, us: nat, ws: seq<Wrapper>, k: nat, c: nat)
    requires Ready(db, s, us) && Solved(db, s, us) && k < |ws| && Partial(db, s, us, ws, |db|, 0)
    requires Advertises(db, c, ws[k].prefix) && Reachable(db, us, c)
    ensures c < |db| && ws[k].distance <= s[c].distance < INFINITY
  {
    FindOnly(ws, k);
    var b: nat :| AdvertisesAt(db, c, b, ws[k].prefix);
    assert Before(db, c, b, |db|, 0);
    assert Covered(s, us, ws, c, PrefixOf(db[c].interfaces[b]));
  }

  /** For a prefix with a reachable advertiser the wrapper holds the minimum, and a way there. */
  lemma {:induction false} WrapperDistance(db: Database, s: Labels, us: nat, ws: seq<Wrapper>, k: nat, a: nat, b: nat)
    requires Ready(db, s, us) && Solved(db, s, us) && Fits(s, us)
    requires k < |ws| && Partial(db, s, us, ws, |db|, 0)
    requires ReachablePrefix(db, us, ws[k].prefix) && From(db, s, us, ws[k], a, b)
    ensures s[a].distance == ws[k].distance && PrefixDistance(db, us, ws[k].prefix, ws[k].distance)
  {
    hide Edge, Connected, Grounded, Partial;
    var w := ws[k];
    var c: nat :| Advertises(db, c, w.prefix) && Reachable(db, us, c);
    AdvertiserBound(db, s, us, ws, k, c);
    assert Advertises(db, a, w.prefix) && MinHops(db, us, a, s[a].distance);
    forall x: nat, h: nat | Advertises(db, x, w.prefix) && Connected(db, us, x, h)
      ensures w.distance <= h
    {
      assert Reachable(db, us, x);
      AdvertiserBound(db, s, us, ws, k, x);
      assert MinHops(db, us, x, s[x].distance);
    }
  }

  /** The next router of a wrapper learned from reached router a, which is not us. */
  lemma {:induction false} WrapperNext(db: Database, s: Labels, us: nat, w: Wrapper, a: nat, b: nat)
    requires Ready(db, s, us) && Solved(db, s, us) && From(db, s, us, w, a, b)
    requires a != us && s[a].distance == w.distance < INFINITY
    ensures CloserNeighbour(db, us, w.prefix, w.distance, w.nextRid)
  {
    IdNonZero(db, s, us, a);
    FirstHopCorrect(db, s, us, a);
    assert Advertises(db, a, w.prefix);
    assert Edge(db, us, FirstHop(db, s, us, a));
  }

  lemma {:induction false} WrapperIsGood(db: Database, s: Labels, us: nat, ws: seq<Wrapper>, k: nat)
    requires Ready(db, s, us) && Solved(db, s, us) && Fits(s, us)
    requires Partial(db, s, us, ws, |db|, 0) && k < |ws|
    ensures GoodWrapper(db, us, ws[k])
  {
    var w := ws[k];
    assert Origin(db, s, us, w, |db|, 0);
    var a: nat, b: nat :| Before(db, a, b, |db|, 0) && From(db, s, us, w, a, b);
    assert Advertises(db, a, w.prefix);
    assert w.direct <==> Advertises(db, us, w.prefix) by {
      assert forall c: nat :: AdvertisesAt(db, us, c, w.prefix) ==> Before(db, us, c, |db|, 0);
    }
    if ReachablePrefix(db, us, w.prefix) {
      WrapperDistance(db, s, us, ws, k, a, b);
      if !w.direct {
        WrapperNext(db, s, us, w, a, b);
      }
    }
  }

  /**
   Route wrappers: on a solved list the construction yields exactly one wrapper per
   advertised prefix; where an advertiser is reachable its distance is the minimum, and
   unless we advertise the prefix ourselves its next router is one hop closer to it.
   */
  lemma {:induction false} BuildCorrect(db: Database, s: Labels, us: nat)
    requires Ready(db, s, us) && Solved(db, s, us) && Fits(s, us)
    ensures GoodWrappers(db, us, Build(db, s, us, |db|))
  {
    BuildPartial(db, s, us, |db|);
    var ws := Build(db, s, us, |db|);
    forall k: nat | k < |ws|
      ensures GoodWrapper(db, us, ws[k])
    {
      WrapperIsGood(db, s, us, ws, k);
    }
    forall a: nat, p: Prefix | Advertises(db, a, p)
      ensures Find(ws, p) < |ws|
    {
      var b: nat :| AdvertisesAt(db, a, b, p);
      assert Before(db, a, b, |db|, 0);
      assert Covered(s, us, ws, a, PrefixOf(db[a].interfaces[b]));
    }
  }
}
