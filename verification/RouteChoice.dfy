/**
 Which offer a route wrapper keeps: of all interfaces on its prefix the first, in list
 order, of a router with the least distance.
 */
module RouteChoice {
  import opened Words
  import opened LinkState
  import opened ShortestPaths
  import opened PrevChains
  import opened RouteWrappers

  /**
   Of the interfaces before interface j of router r, interface b of router a is the first of
   the closest that are on the wrapper's prefix, and the wrapper says what it offers: the
   router's distance, cut to 16 bits, and as next router its neighbour if the router has no
   predecessor, else the first hop towards it.
   */
  ghost predicate Chosen(db: Database, s: Labels, us: nat, w: Wrapper, a: nat, b: nat, r: nat, j: nat)
    requires Ready(db, s, us)
  {
    && Before(db, a, b, r, j) && AdvertisesAt(db, a, b, w.prefix)
    && w.distance == s[a].distance % 0x1_0000
    && (s[a].prev == 0 ==> w.nextRid == db[a].interfaces[b].routerId)
    && (s[a].prev != 0 ==> LeadsBack(db, s, us, a) && w.nextRid == db[FirstHop(db, s, us, a)].routerId)
    && forall c: nat, d: nat :: Before(db, c, d, r, j) && AdvertisesAt(db, c, d, w.prefix) ==>
         if Before(db, c, d, a, b) then s[a].distance < s[c].distance else s[a].distance <= s[c].distance
  }

  ghost predicate HasChosen(db: Database, s: Labels, us: nat, w: Wrapper, r: nat, j: nat)
    requires Ready(db, s, us)
  {
    exists a: nat, b: nat :: Chosen(db, s, us, w, a, b, r, j)
  }

  ghost predicate AllChosen(db: Database, s: Labels, us: nat, ws: seq<Wrapper>, r: nat, j: nat)
    requires Ready(db, s, us)
  {
    forall k :: 0 <= k < |ws| ==> HasChosen(db, s, us, ws[k], r, j)
  }

  /** A wrapper that the next offer does not change. */
  lemma {:induction false} ChosenStays(db: Database, s: Labels, us: nat, w: Wrapper, r: nat, j: nat)
    requires Ready(db, s, us) && Fits(s, us) && r < |db| && j < |db[r].interfaces| && HasChosen(db, s, us, w, r, j)
    requires PrefixOf(db[r].interfaces[j]) == w.prefix ==> s[r].distance >= w.distance
    ensures HasChosen(db, s, us, w, r, j + 1)
  {
    var a: nat, b: nat :| Chosen(db, s, us, w, a, b, r, j);
    forall c: nat, d: nat | Before(db, c, d, r, j + 1) && AdvertisesAt(db, c, d, w.prefix)
      ensures if Before(db, c, d, a, b) then s[a].distance < s[c].distance else s[a].distance <= s[c].distance
    {
      assert Before(db, c, d, r, j) || (c == r && d == j);
    }
    assert Chosen(db, s, us, w, a, b, r, j + 1);
  }

  /** The wrapper that the next offer appends or replaces. */
  lemma {:induction false} ChosenNew(db: Database, s: Labels, us: nat, ws: seq<Wrapper>, w: Wrapper, r: nat, j: nat)
    requires Ready(db, s, us) && Fits(s, us) && r < |db| && j < |db[r].interfaces|
    requires Partial(db, s, us, ws, r, j) && AllChosen(db, s, us, ws, r, j) && From(db, s, us, w, r, j)
    requires var f := Find(ws, w.prefix); f < |ws| ==> s[r].distance < ws[f].distance
    ensures HasChosen(db, s, us, w, r, j + 1)
  {
    var f := Find(ws, w.prefix);
    forall c: nat, d: nat | Before(db, c, d, r, j) && AdvertisesAt(db, c, d, w.prefix)
      ensures s[r].distance < s[c].distance
    {
      assert Covered(s, us, ws, c, PrefixOf(db[c].interfaces[d]));
      assert HasChosen(db, s, us, ws[f], r, j);
    }
    assert s[r].prev != 0 ==> LeadsBack(db, s, us, r);
    assert Chosen(db, s, us, w, r, j, r, j + 1);
  }

  lemma {:induction false} AddChooses(db: Database, s: Labels, us: nat, ws: seq<Wrapper>, r: nat, j: nat)
    requires Ready(db, s, us) && Fits(s, us) && r < |db| && j < |db[r].interfaces|
    requires Partial(db, s, us, ws, r, j) && AllChosen(db, s, us, ws, r, j)
    ensures AllChosen(db, s, us, Add(db, s, us, ws, r, db[r].interfaces[j]), r, j + 1)
  {
    var i := db[r].interfaces[j];
    var f := Find(ws, PrefixOf(i));
    var vs := Add(db, s, us, ws, r, i);
    forall k: nat | k < |vs|
      ensures HasChosen(db, s, us, vs[k], r, j + 1)
    {
      if k < |ws| && vs[k] == ws[k] {
        assert HasChosen(db, s, us, ws[k], r, j);
        assert ws[k].prefix == PrefixOf(i) ==> k == f;
        ChosenStays(db, s, us, ws[k], r, j);
      } else {
        assert k == f;
        ChosenNew(db, s, us, ws, vs[k], r, j);
      }
    }
  }

  lemma {:induction false} RouterChooses(db: Database, s: Labels, us: nat, ws: seq<Wrapper>, r: nat, j: nat)
    requires WellFormed(db) && Ready(db, s, us) && Fits(s, us) && r < |db| && j <= |db[r].interfaces|
    requires Partial(db, s, us, ws, r, 0) && AllChosen(db, s, us, ws, r, 0)
    ensures AllChosen(db, s, us, AddRouter(db, s, us, ws, r, j), r, j)
    decreases j
  {
    hide Partial, AllChosen, Add;
    if j > 0 {
      RouterChooses(db, s, us, ws, r, j - 1);
      RouterKeepsPartial(db, s, us, ws, r, j - 1);
      AddChooses(db, s, us, AddRouter(db, s, us, ws, r, j - 1), r, j - 1);
    }
  }

  lemma {:induction false} NextChooses(db: Database, s: Labels, us: nat, ws: seq<Wrapper>, r: nat)
    requires Ready(db, s, us) && r < |db| && AllChosen(db, s, us, ws, r, |db[r].interfaces|)
    ensures AllChosen(db, s, us, ws, r + 1, 0)
  {
    var j := |db[r].interfaces|;
    forall k: nat | k < |ws|
      ensures HasChosen(db, s, us, ws[k], r + 1, 0)
    {
      assert HasChosen(db, s, us, ws[k], r, j);
      var a: nat, b: nat :| Chosen(db, s, us, ws[k], a, b, r, j);
      assert forall c: nat, d: nat :: Before(db, c, d, r, j) <==> Before(db, c, d, r + 1, 0);
      assert Chosen(db, s, us, ws[k], a, b, r + 1, 0);
    }
  }

  /** Every wrapper keeps the first of the closest offers for its prefix. */
  lemma {:induction false} BuildChooses(db: Database, s: Labels, us: nat, n: nat)
    requires WellFormed(db) && Ready(db, s, us) && Fits(s, us) && n <= |db|
    ensures forall w :: w in Build(db, s, us, n) ==> exists a: nat, b: nat :: Chosen(db, s, us, w, a, b, n, 0)
  {
    BuildAllChosen(db, s, us, n);
    hide Build;
    forall w | w in Build(db, s, us, n)
      ensures exists a: nat, b: nat :: Chosen(db, s, us, w, a, b, n, 0)
    {
      var k :| 0 <= k < |Build(db, s, us, n)| && Build(db, s, us, n)[k] == w;
      assert HasChosen(db, s, us, Build(db, s, us, n)[k], n, 0);
    }
  }

  lemma {:induction false} BuildAllChosen(db: Database, s: Labels, us: nat, n: nat)
    requires WellFormed(db) && Ready(db, s, us) && Fits(s, us) && n <= |db|
    ensures AllChosen(db, s, us, Build(db, s, us, n), n, 0)
    decreases n
  {
    hide Partial, AllChosen, AddRouter;
    if n == 0 {
      NoneChosen(db, s, us);
    } else {
      BuildAllChosen(db, s, us, n - 1);
      BuildPartial(db, s, us, n - 1);
      RouterChooses(db, s, us, Build(db, s, us, n - 1), n - 1, |db[n - 1].interfaces|);
      NextChooses(db, s, us, Build(db, s, us, n), n - 1);
    }
  }

  lemma {:induction false} NoneChosen(db: Database, s: Labels, us: nat)
    requires Ready(db, s, us)
    ensures AllChosen(db, s, us, [], 0, 0)
  {
  }

  /** The wrapper of a prefix of our own names the neighbour on our first interface on that prefix. */
  lemma {:induction false} OwnPrefix(db: Database, s: Labels, us: nat, w: Wrapper)
    requires WellFormed(db) && Ready(db, s, us) && Fits(s, us) && w in Build(db, s, us, |db|)
    requires Advertises(db, us, w.prefix)
    ensures w.distance == 0
    ensures exists b: nat ::
              && AdvertisesAt(db, us, b, w.prefix) && w.nextRid == db[us].interfaces[b].routerId
              && forall d: nat :: d < b ==> !AdvertisesAt(db, us, d, w.prefix)
  {
    BuildChooses(db, s, us, |db|);
    var a: nat, b: nat :| Chosen(db, s, us, w, a, b, |db|, 0);
    var d: nat :| AdvertisesAt(db, us, d, w.prefix);
    assert Before(db, us, d, |db|, 0);
    assert a == us;
    forall c: nat | c < b
      ensures !AdvertisesAt(db, us, c, w.prefix)
    {
      if AdvertisesAt(db, us, c, w.prefix) {
        assert Before(db, us, c, |db|, 0) && Before(db, us, c, a, b);
        assert false;
      }
    }
  }
}
