/**
 The order in which the routing table is kept: longer masks first, then higher
 addresses, static entries before dynamic ones. A sorted table is determined by the
 order of its equally ranked entries, which is what makes a stable sort reproducible.
 */
module RouteOrder {
  import opened Words

  datatype RouteEntry = RouteEntry(ip: Uint32, gw: Uint32, mask: Uint32, iface: string, isStatic: bool, isActive: bool)
  type Table = seq<RouteEntry>

  /** The comparison of the table sort: a must not stand before b. */
  predicate Worse(a: RouteEntry, b: RouteEntry) {
    || a.mask < b.mask
    || (a.mask == b.mask && a.ip < b.ip)
    || (a.mask == b.mask && a.ip == b.ip && !a.isStatic && b.isStatic)
  }

  predicate SameRank(a: RouteEntry, b: RouteEntry) {
    a.mask == b.mask && a.ip == b.ip && a.isStatic == b.isStatic
  }

  lemma {:induction false} Trichotomy(a: RouteEntry, b: RouteEntry)
    ensures Worse(a, b) || Worse(b, a) || SameRank(a, b)
    ensures !(Worse(a, b) && Worse(b, a)) && !(Worse(a, b) && SameRank(a, b))
  {
  }

  lemma {:induction false} WorseTransitive(a: RouteEntry, b: RouteEntry, c: RouteEntry)
    ensures !Worse(a, b) && !Worse(b, c) ==> !Worse(a, c)
  {
  }

  predicate Sorted(t: Table) {
    forall i, j :: 0 <= i < j < |t| ==> !Worse(t[i], t[j])
  }

  /** By falling mask, within that by falling address, and static entries first among those for one prefix. */
  lemma {:induction false} SortedMeans(t: Table)
    ensures Sorted(t) <==> forall i, j :: 0 <= i < j < |t| ==>
              var a, b := t[i], t[j];
              a.mask > b.mask || (a.mask == b.mask && (a.ip > b.ip || (a.ip == b.ip && (a.isStatic || !b.isStatic))))
  {
  }

  /** The entries of t that rank like e, in order. */
  function Rank(t: Table, e: RouteEntry): Table {
    if t == [] then []
    else if SameRank(t[0], e) then [t[0]] + Rank(t[1..], e)
    else Rank(t[1..], e)
  }

  /** u is a rearrangement of t that keeps equally ranked entries in order. */
  ghost predicate Stable(t: Table, u: Table) {
    forall e :: Rank(t, e) == Rank(u, e)
  }

  lemma {:induction false} RankJoin(t: Table, u: Table, e: RouteEntry)
    ensures Rank(t + u, e) == Rank(t, e) + Rank(u, e)
  {
    if t == [] {
      assert t + u == u;
    } else {
      assert (t + u)[1..] == t[1..] + u;
      RankJoin(t[1..], u, e);
    }
  }

  /** t with the entries at k and k + 1 exchanged. */
  function Exchange(t: Table, k: nat): (u: Table)
    requires k + 1 < |t|
    ensures |u| == |t|
  {
    t[k := t[k + 1]][k + 1 := t[k]]
  }

  /** Exchanging two neighbours of different rank is stable. */
  lemma {:induction false} SwapStable(t: Table, k: nat)
    requires k + 1 < |t| && Worse(t[k], t[k + 1])
    ensures Stable(t, Exchange(t, k))
  {
    var a, b := t[k], t[k + 1];
    var u := t[k := b][k + 1 := a];
    forall e
      ensures Rank(t, e) == Rank(u, e)
    {
      assert t == t[..k] + [a, b] + t[k + 2..];
      assert u == t[..k] + [b, a] + t[k + 2..];
      RankJoin(t[..k] + [a, b], t[k + 2..], e);
      RankJoin(t[..k] + [b, a], t[k + 2..], e);
      RankJoin(t[..k], [a, b], e);
      RankJoin(t[..k], [b, a], e);
      RankPair(a, b, e);
    }
  }

  lemma {:induction false} RankPair(a: RouteEntry, b: RouteEntry, e: RouteEntry)
    requires Worse(a, b)
    ensures Rank([a, b], e) == Rank([b, a], e)
  {
    Trichotomy(a, b);
    assert [a, b][1..] == [b] && [b, a][1..] == [a];
    assert Rank([b], e) == if SameRank(b, e) then [b] else [];
    assert Rank([a], e) == if SameRank(a, e) then [a] else [];
  }

  lemma {:induction false} RankMember(t: Table, i: nat)
    requires i < |t|
    ensures Rank(t, t[i]) != []
  {
    if i > 0 {
      RankMember(t[1..], i - 1);
    }
  }

  lemma {:induction false} RankFrom(t: Table, e: RouteEntry) returns (i: nat)
    requires Rank(t, e) != []
    ensures i < |t| && SameRank(t[i], e) && t[i] == Rank(t, e)[0]
  {
    if SameRank(t[0], e) {
      i := 0;
    } else {
      i := RankFrom(t[1..], e);
      i := i + 1;
    }
  }

  /** No entry of a sorted table ranks before its head. */
  lemma {:induction false} HeadIsBest(t: Table, u: Table)
    requires Sorted(t) && Stable(t, u) && t != [] && u != []
    ensures !Worse(t[0], u[0])
  {
    RankMember(u, 0);
    var i := RankFrom(t, u[0]);
    Trichotomy(t[0], u[0]);
    Trichotomy(t[i], u[0]);
    WorseTransitive(t[0], t[i], u[0]);
  }

  /** A stable sort has only one result. */
  lemma {:induction false} SortedUnique(t: Table, u: Table)
    requires Sorted(t) && Sorted(u) && Stable(t, u)
    ensures t == u
  {
    if t == [] {
      if u != [] {
        RankMember(u, 0);
      }
    } else {
      RankMember(t, 0);
      var i := RankFrom(u, t[0]);
      HeadIsBest(t, u);
      HeadIsBest(u, t);
      Trichotomy(t[0], u[0]);
      assert Rank(t, t[0]) == Rank(u, t[0]);
      assert SameRank(u[0], t[0]) && SameRank(t[0], t[0]);
      assert t[0] == u[0];
      forall e
        ensures Rank(t[1..], e) == Rank(u[1..], e)
      {
        assert Rank(t, e) == Rank(u, e);
        if SameRank(t[0], e) {
          assert Rank(t[1..], e) == Rank(t, e)[1..] && Rank(u[1..], e) == Rank(u, e)[1..];
        }
      }
      SortedUnique(t[1..], u[1..]);
      assert t == [t[0]] + t[1..] && u == [u[0]] + u[1..];
    }
  }

  /** Neighbours in order everywhere means sorted. */
  lemma {:induction false} NeighboursSorted(t: Table, i: nat, j: nat)
    requires forall k :: 0 <= k < |t| - 1 ==> !Worse(t[k], t[k + 1])
    requires i < j < |t|
    ensures !Worse(t[i], t[j])
    decreases j - i
  {
    if i + 1 < j {
      NeighboursSorted(t, i, j - 1);
      WorseTransitive(t[i], t[j - 1], t[j]);
    }
  }

  // ----- inversions, the measure of the bubble sort

  function CountBetter(a: RouteEntry, t: Table): nat {
    if t == [] then 0 else (if Worse(a, t[0]) then 1 else 0) + CountBetter(a, t[1..])
  }

  function Inversions(t: Table): nat {
    if t == [] then 0 else CountBetter(t[0], t[1..]) + Inversions(t[1..])
  }

  lemma {:induction false} CountSwap(a: RouteEntry, t: Table, k: nat)
    requires k + 1 < |t|
    ensures CountBetter(a, Exchange(t, k)) == CountBetter(a, t)
  {
    var u := Exchange(t, k);
    if k == 0 {
      assert u[1..][1..] == t[1..][1..];
    } else {
      assert u[1..] == t[1..][k - 1 := t[k + 1]][k := t[k]];
      CountSwap(a, t[1..], k - 1);
    }
  }

  /** Exchanging a neighbouring pair that is out of order removes exactly one inversion. */
  lemma {:induction false} SwapInversions(t: Table, k: nat)
    requires k + 1 < |t| && Worse(t[k], t[k + 1])
    ensures Inversions(Exchange(t, k)) == Inversions(t) - 1
  {
    var u := Exchange(t, k);
    if k == 0 {
      Trichotomy(t[0], t[1]);
      var rest := t[2..];
      assert u[1..][1..] == rest && t[1..][1..] == rest;
    } else {
      assert u[1..] == t[1..][k - 1 := t[k + 1]][k := t[k]];
      CountSwap(t[0], t[1..], k - 1);
      SwapInversions(t[1..], k - 1);
    }
  }

  // ----- static and dynamic entries

  function Statics(t: Table): (u: Table)
    ensures forall e :: e in u ==> e.isStatic
  {
    if t == [] then [] else (if t[0].isStatic then [t[0]] else []) + Statics(t[1..])
  }

  /** A static rank is untouched by dropping dynamic entries; a dynamic rank vanishes. */
  lemma {:induction false} RankStatics(t: Table, e: RouteEntry)
    ensures Rank(Statics(t), e) == if e.isStatic then Rank(t, e) else []
  {
    if t != [] {
      RankStatics(t[1..], e);
      RankJoin(if t[0].isStatic then [t[0]] else [], Statics(t[1..]), e);
      assert [t[0]][1..] == [];
    }
  }

  lemma {:induction false} RankDynamic(t: Table, e: RouteEntry)
    requires e.isStatic && forall x :: x in t ==> !x.isStatic
    ensures Rank(t, e) == []
  {
    if t != [] {
      RankDynamic(t[1..], e);
    }
  }

  /** What one rebuild makes of a table: the stable sort of its static entries and the new dynamic ones. */
  ghost predicate Rebuilt(t: Table, dynamics: Table, u: Table) {
    Sorted(u) && Stable(Statics(t) + dynamics, u)
  }

  /** The static entries of the rebuilt table are those of the old one; in the same order if they were sorted. */
  lemma {:induction false} RebuiltStatics(t: Table, dynamics: Table, u: Table)
    requires Rebuilt(t, dynamics, u) && forall x :: x in dynamics ==> !x.isStatic
    ensures Stable(Statics(t), Statics(u))
    ensures Statics(u) == Statics(t) <==> Sorted(Statics(t))
  {
    forall e
      ensures Rank(Statics(t), e) == Rank(Statics(u), e)
    {
      RankStatics(u, e);
      RankStatics(t, e);
      if e.isStatic {
        assert Rank(Statics(t) + dynamics, e) == Rank(u, e);
        RankJoin(Statics(t), dynamics, e);
        RankDynamic(dynamics, e);
      }
    }
    SortedStatics(u);
    if Sorted(Statics(t)) {
      SortedUnique(Statics(t), Statics(u));
    }
  }

  lemma {:induction false} StaticsFrom(t: Table, x: RouteEntry)
    requires x in Statics(t)
    ensures x in t
  {
    if t != [] && x != t[0] {
      StaticsFrom(t[1..], x);
    }
  }

  lemma {:induction false} SortedStatics(t: Table)
    requires Sorted(t)
    ensures Sorted(Statics(t))
  {
    if t != [] {
      SortedStatics(t[1..]);
      forall x | x in Statics(t[1..])
        ensures !Worse(t[0], x)
      {
        StaticsFrom(t[1..], x);
      }
    }
  }

  /** Rebuilding again with the same dynamic entries leaves the table as it is. */
  lemma {:induction false} RebuiltTwice(t: Table, dynamics: Table, u: Table, v: Table)
    requires Rebuilt(t, dynamics, u) && Rebuilt(u, dynamics, v) && forall x :: x in dynamics ==> !x.isStatic
    ensures v == u
  {
    RebuiltStatics(t, dynamics, u);
    forall e
      ensures Rank(u, e) == Rank(v, e)
    {
      assert Rank(Statics(t) + dynamics, e) == Rank(u, e);
      assert Rank(Statics(u) + dynamics, e) == Rank(v, e);
      RankJoin(Statics(t), dynamics, e);
      RankJoin(Statics(u), dynamics, e);
    }
    SortedUnique(u, v);
  }
}
