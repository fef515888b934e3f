/**
 The shortest-path phase of `compute_rtable`: initialisation, selection of the closest
 unfinished router, relaxation of its neighbours, and the loop over them.

 The labels the code keeps in each router record are first treated as a value, one
 `Label` per list position. `Solve` is the computation on these values; module
 RouterRecords has the mutable records, and its methods are proved to compute `Solve`.
 */
module ShortestPaths {
  import opened Words
  import opened LinkState

  /** prev is the id of the previous router, 0 when the pointer is null. */
  datatype Label = Label(distance: Uint32, found: bool, prev: Uint32)
  type Labels = seq<Label>

  function PlusOne(d: Uint32): Uint32 {
    (d + 1) % 0x1_0000_0000
  }

  /** A label at its maximum, except our own; a router with id 0 is left alone. */
  function InitLabel(l: Label, rid: Uint32, us: Uint32): Label {
    if rid == us then l.(distance := 0, found := true)
    else if rid != 0 then l.(distance := INFINITY, found := false)
    else l
  }

  function Init(db: Database, s: Labels, us: Uint32): (t: Labels)
    requires |s| == |db|
    ensures |t| == |s|
    ensures forall v :: 0 <= v < |s| ==> t[v] == InitLabel(s[v], db[v].routerId, us)
  {
    seq(|s|, v requires 0 <= v < |s| => InitLabel(s[v], db[v].routerId, us))
  }

  /** First router, among the first n, with the least distance of the unfinished ones; |s| when none is left. */
  function Select(s: Labels, n: nat): (b: nat)
    requires n <= |s|
    ensures b < n || b == |s|
    ensures b < |s| ==> !s[b].found && s[b].distance < INFINITY
  {
    if n == 0 then |s|
    else
      var b := Select(s, n - 1);
      if !s[n - 1].found && s[n - 1].distance < (if b == |s| then INFINITY else s[b].distance)
      then n - 1 else b
  }

  /** Effect of the first k interfaces of router w on the labels. */
  function Relax(db: Database, s: Labels, w: nat, k: nat): (t: Labels)
    requires |s| == |db| && w < |db| && k <= |db[w].interfaces|
    ensures |t| == |s|
    ensures forall v :: 0 <= v < |s| ==> t[v].found == s[v].found
    ensures s[w].found ==> t[w] == s[w]
  {
    if k == 0 then s
    else RelaxOne(db, Relax(db, s, w, k - 1), w, db[w].interfaces[k - 1])
  }

  function RelaxOne(db: Database, s: Labels, w: nat, i: Interface): (t: Labels)
    requires |s| == |db| && w < |db|
    ensures |t| == |s|
    ensures forall v :: 0 <= v < |s| ==> t[v].found == s[v].found
    ensures s[w].found ==> t[w] == s[w]
  {
    var v := IndexOf(db, i.routerId);
    if i.routerId != 0 && i.isActive && v < |db| && !s[v].found && PlusOne(s[w].distance) < s[v].distance
    then s[v := s[v].(distance := PlusOne(s[w].distance), prev := db[w].routerId)]
    else s
  }

  function Mark(s: Labels, w: nat): (t: Labels)
    requires w < |s|
  {
    s[w := s[w].(found := true)]
  }

  function Settle(db: Database, s: Labels, w: nat): (t: Labels)
    requires |s| == |db| && w < |db|
    ensures |t| == |s|
    ensures forall v :: 0 <= v < |s| ==> t[v].found == (s[v].found || v == w)
  {
    Relax(db, Mark(s, w), w, |db[w].interfaces|)
  }

  function Unfinished(s: Labels): set<nat> {
    set v: nat | v < |s| && !s[v].found
  }

  lemma {:induction false} SettleShrinks(db: Database, s: Labels, w: nat)
    requires |s| == |db| && w < |db|
    ensures var t := Settle(db, s, w);
            var n := Select(t, |t|);
            n < |t| ==> |Unfinished(Mark(t, n))| < |Unfinished(Mark(s, w))|
  {
    var t := Settle(db, s, w);
    var n := Select(t, |t|);
    assert Unfinished(t) == Unfinished(Mark(s, w));
    if n < |t| {
      assert Unfinished(Mark(t, n)) == Unfinished(t) - {n};
      assert n in Unfinished(t);
    }
  }

  /** The selection loop, started at router w. */
  function Loop(db: Database, s: Labels, w: nat): (t: Labels)
    requires |s| == |db| && w < |db|
    ensures |t| == |s|
    decreases |Unfinished(Mark(s, w))|
  {
    var t := Settle(db, s, w);
    var n := Select(t, |t|);
    if n == |t| then t
    else
      SettleShrinks(db, s, w);
      Loop(db, t, n)
  }

  function Solve(db: Database, s: Labels, us: Uint32): (t: Labels)
    requires |s| == |db|
    ensures |t| == |s|
  {
    var s0 := Init(db, s, us);
    var w := IndexOf(db, us);
    if w == |db| then s0 else Loop(db, s0, w)
  }

  // ----- correctness of the computation on values

  /** v's label was set through its previous router, which is finished, adjacent and one hop closer. */
  ghost predicate HangsOff(db: Database, s: Labels, v: nat)
    requires |s| == |db| && v < |db|
  {
    var p := IndexOf(db, s[v].prev);
    && p < |db| && s[p].found && Edge(db, p, v)
    && s[v].distance == s[p].distance + 1
  }

  /** What every iteration keeps. Every finished router other than w has been relaxed. */
  ghost predicate Invariant(db: Database, s: Labels, us: nat, w: nat) {
    && WellFormed(db) && |s| == |db| && us < |db|
    && s[us].distance == 0 && s[us].found
    && (forall v: nat :: v < |s| && s[v].found ==> s[v].distance < INFINITY)
    && (forall v: nat {:trigger MinHops(db, us, v, s[v].distance)} ::
          v < |s| && s[v].found ==> MinHops(db, us, v, s[v].distance))
    && (forall v: nat {:trigger HangsOff(db, s, v)} ::
          v < |s| && v != us && s[v].distance < INFINITY ==> HangsOff(db, s, v))
    && (forall u: nat, v: nat :: Edge(db, u, v) && s[u].found && u != w ==> s[v].distance <= s[u].distance + 1)
    && (forall v: nat :: v < |s| && s[v].distance < INFINITY ==>
          s[v].distance + |Unfinished(s)| + (if s[v].found then 1 else 0) <= |s|)
  }

  /** Exact effect of relaxing the first k interfaces. */
  lemma {:induction false} RelaxEffect(db: Database, s: Labels, w: nat, k: nat, v: nat)
    requires WellFormed(db) && |s| == |db| && w < |db| && v < |db| && k <= |db[w].interfaces|
    requires s[w].found && s[w].distance + 1 <= INFINITY
    ensures Relax(db, s, w, k)[v] ==
            if !s[v].found && s[w].distance + 1 < s[v].distance
               && (exists j :: 0 <= j < k && LinksTo(db[w].interfaces[j], db[v].routerId))
            then s[v].(distance := s[w].distance + 1, prev := db[w].routerId)
            else s[v]
  {
    if k > 0 {
      RelaxEffect(db, s, w, k - 1, v);
      var t := Relax(db, s, w, k - 1);
      var i := db[w].interfaces[k - 1];
      assert t[w] == s[w];
      IndexOfSelf(db, v);
      var x := IndexOf(db, i.routerId);
      assert x == v <==> i.routerId == db[v].routerId;
      assert RelaxOne(db, t, w, i)[v] ==
             if LinksTo(i, db[v].routerId) && !t[v].found && s[w].distance + 1 < t[v].distance
             then t[v].(distance := s[w].distance + 1, prev := db[w].routerId) else t[v];
    }
  }

  /** Every label after relaxing all interfaces of w, in terms of the graph. */
  lemma {:induction false} RelaxAll(db: Database, s: Labels, w: nat)
    requires WellFormed(db) && |s| == |db| && w < |db|
    requires s[w].found && s[w].distance < INFINITY
    ensures var t := Relax(db, s, w, |db[w].interfaces|);
            forall v: nat :: v < |db| ==>
              t[v] == if !s[v].found && s[w].distance + 1 < s[v].distance && Edge(db, w, v)
                      then s[v].(distance := s[w].distance + 1, prev := db[w].routerId)
                      else s[v]
  {
    forall v: nat | v < |db| {
      RelaxEffect(db, s, w, |db[w].interfaces|, v);
    }
  }

  /** A link out of a finished router to another finished one never offers a shorter way. */
  lemma {:induction false} FinishedIsMinimal(db: Database, s: Labels, us: nat, u: nat, v: nat)
    requires Edge(db, u, v) && |s| == |db|
    requires MinHops(db, us, u, s[u].distance) && MinHops(db, us, v, s[v].distance)
    ensures s[v].distance <= s[u].distance + 1
  {
    ConnectedEdge(db, u, v);
    ConnectedJoin(db, us, u, v, s[u].distance, 1);
  }

  /** Relaxing the router that was just finished restores the invariant in full. */
  lemma {:induction false} RelaxKeepsInvariant(db: Database, s: Labels, us: nat, w: nat)
    requires w < |db| && Invariant(db, s, us, w) && s[w].found
    ensures Invariant(db, Relax(db, s, w, |db[w].interfaces|), us, |db|)
  {
    var t := Relax(db, s, w, |db[w].interfaces|);
    RelaxAll(db, s, w);
    assert Unfinished(t) == Unfinished(s);
    forall v: nat | v < |t| && v != us && t[v].distance < INFINITY
      ensures HangsOff(db, t, v)
    {
      if t[v] != s[v] {
        IndexOfSelf(db, w);
      } else {
        assert HangsOff(db, s, v);
      }
    }
    forall u: nat, v: nat | Edge(db, u, v) && t[u].found
      ensures t[v].distance <= t[u].distance + 1
    {
      if s[v].found {
        assert MinHops(db, us, u, s[u].distance) && MinHops(db, us, v, s[v].distance);
        FinishedIsMinimal(db, s, us, u, v);
      }
    }
    assert s[w].distance + |Unfinished(s)| + 1 <= |s|;
  }

  /**
   Either a walk of h links from us ends at a label of at most h, or it has left the
   finished routers through one whose label is at most h.
   */
  lemma {:induction false} Frontier(db: Database, s: Labels, us: nat, x: nat, h: nat) returns (v: nat)
    requires Invariant(db, s, us, |db|) && Connected(db, us, x, h)
    ensures x < |db| && v < |db| && s[v].distance <= h && (v == x || !s[v].found)
    decreases h
  {
    if h == 0 {
      v := x;
    } else {
      var y: nat :| Connected(db, us, y, h - 1) && Edge(db, y, x);
      v := Frontier(db, s, us, y, h - 1);
      if s[v].found {
        assert s[x].distance <= s[y].distance + 1;
        v := x;
      }
    }
  }

  /** The router `Select` picks is a closest unfinished one, and the first such in the list. */
  lemma {:induction false} SelectIsClosest(s: Labels, n: nat)
    requires n <= |s|
    ensures var b := Select(s, n);
            forall v :: 0 <= v < n && !s[v].found ==>
              && (b == |s| ==> s[v].distance == INFINITY)
              && (b < |s| ==> s[b].distance <= s[v].distance && (v < b ==> s[b].distance < s[v].distance))
  {
    if n > 0 {
      SelectIsClosest(s, n - 1);
    }
  }

  /** The label of the router selected next is its minimum hop count. */
  lemma {:induction false} SelectedIsMinimal(db: Database, s: Labels, us: nat, w: nat)
    requires Invariant(db, s, us, |db|) && w == Select(s, |s|) && w < |s|
    ensures MinHops(db, us, w, s[w].distance)
  {
    hide Edge, IndexOf;
    assert HangsOff(db, s, w);
    var p := IndexOf(db, s[w].prev);
    assert MinHops(db, us, p, s[p].distance);
    ConnectedEdge(db, p, w);
    ConnectedJoin(db, us, p, w, s[p].distance, 1);
    SelectIsClosest(s, |s|);
    forall h: nat | Connected(db, us, w, h)
      ensures s[w].distance <= h
    {
      var v := Frontier(db, s, us, w, h);
    }
  }

  lemma {:induction false} MarkShrinks(s: Labels, w: nat)
    requires w < |s| && !s[w].found
    ensures |Unfinished(Mark(s, w))| == |Unfinished(s)| - 1
  {
    assert Unfinished(Mark(s, w)) == Unfinished(s) - {w} && w in Unfinished(s);
  }

  lemma {:induction false} MarkKeepsHangsOff(db: Database, s: Labels, w: nat, v: nat)
    requires |s| == |db| && w < |db| && v < |db| && HangsOff(db, s, v)
    ensures HangsOff(db, Mark(s, w), v)
  {
  }

  /** So the router selected next may be finished. */
  lemma {:induction false} MarkKeepsInvariant(db: Database, s: Labels, us: nat, w: nat)
    requires Invariant(db, s, us, |db|) && w == Select(s, |s|) && w < |s|
    ensures Invariant(db, Mark(s, w), us, w)
  {
    hide MinHops;
    var t := Mark(s, w);
    SelectedIsMinimal(db, s, us, w);
    MarkShrinks(s, w);
    forall v: nat | v < |t| && v != us && t[v].distance < INFINITY
      ensures HangsOff(db, t, v)
    {
      MarkKeepsHangsOff(db, s, w, v);
    }
    forall v: nat | v < |t| && t[v].found
      ensures MinHops(db, us, v, t[v].distance)
    {
      assert v != w ==> MinHops(db, us, v, s[v].distance);
    }
    hide Unfinished, HangsOff, Edge;
  }

  lemma {:induction false} LoopKeepsInvariant(db: Database, s: Labels, us: nat, w: nat)
    requires w < |db| && |s| == |db| && Invariant(db, Mark(s, w), us, w)
    ensures var t := Loop(db, s, w);
            Invariant(db, t, us, |db|) && Select(t, |t|) == |t|
    decreases |Unfinished(Mark(s, w))|
  {
    var t := Settle(db, s, w);
    RelaxKeepsInvariant(db, Mark(s, w), us, w);
    var n := Select(t, |t|);
    if n < |t| {
      SettleShrinks(db, s, w);
      MarkKeepsInvariant(db, t, us, n);
      LoopKeepsInvariant(db, t, us, n);
    }
  }

  /** What the labels mean when the loop has ended. */
  ghost predicate Solved(db: Database, s: Labels, us: nat) {
    && WellFormed(db) && |s| == |db| && us < |db| && s[us].distance == 0
    && (forall v: nat :: v < |db| && s[v].distance < INFINITY ==> s[v].found && s[v].distance < |db|)
    && (forall v: nat {:trigger MinHops(db, us, v, s[v].distance)} ::
          v < |db| && s[v].distance < INFINITY ==> MinHops(db, us, v, s[v].distance))
    && (forall v: nat {:trigger Reachable(db, us, v)} ::
          v < |db| && s[v].distance == INFINITY ==> !Reachable(db, us, v))
    && (forall v: nat {:trigger HangsOff(db, s, v)} ::
          v < |db| && v != us && s[v].distance < INFINITY ==> HangsOff(db, s, v))
  }

  lemma {:induction false} InitInvariant(db: Database, s: Labels, us: nat)
    requires WellFormed(db) && |s| == |db| <= INFINITY && us < |db|
    ensures Invariant(db, Mark(Init(db, s, db[us].routerId), us), us, us)
  {
    var t := Mark(Init(db, s, db[us].routerId), us);
    forall v: nat | v < |t| && v != us
      ensures t[v].distance == INFINITY && !t[v].found
    {
      if v < us { assert db[v].routerId != db[us].routerId; }
      else { assert db[us].routerId != db[v].routerId; }
    }
    assert Connected(db, us, us, 0);
    UnfinishedSize(t, us);
  }

  lemma {:induction false} UnfinishedSize(t: Labels, us: nat)
    requires us < |t| && t[us].found
    ensures |Unfinished(t)| < |t|
  {
    FewerThan(Unfinished(t) + {us}, |t|);
    assert us !in Unfinished(t);
  }

  lemma {:induction false} FewerThan(a: set<nat>, n: nat)
    requires forall x :: x in a ==> x < n
    ensures |a| <= n
  {
    if n > 0 {
      FewerThan(a - {n - 1}, n - 1);
    }
  }

  /**
   Shortest paths: after the loop every distance is the minimum number of active links
   from us, INFINITY exactly for the routers no walk reaches, and each reached router
   hangs off an adjacent finished router that is one hop closer.
   */
  lemma {:induction false} SolveCorrect(db: Database, s: Labels, us: nat)
    requires WellFormed(db) && |s| == |db| <= INFINITY && us < |db|
    ensures Solved(db, Solve(db, s, db[us].routerId), us)
  {
    var rid := db[us].routerId;
    IndexOfSelf(db, us);
    var s0 := Init(db, s, rid);
    InitInvariant(db, s, us);
    LoopKeepsInvariant(db, s0, us, us);
    var t := Loop(db, s0, us);
    SelectIsClosest(t, |t|);
    forall v: nat | v < |db| && t[v].distance == INFINITY
      ensures !Reachable(db, us, v)
    {
      forall h: nat | Connected(db, us, v, h)
        ensures false
      {
        Unreached(db, t, us, v, h);
      }
    }
  }

  lemma {:induction false} Unreached(db: Database, t: Labels, us: nat, x: nat, h: nat)
    requires Invariant(db, t, us, |db|) && Select(t, |t|) == |t| && |db| <= INFINITY
    requires Connected(db, us, x, h)
    ensures x < |db| && t[x].distance < INFINITY && t[x].found
    decreases h
  {
    SelectIsClosest(t, |t|);
    if h > 0 {
      var y: nat :| Connected(db, us, y, h - 1) && Edge(db, y, x);
      Unreached(db, t, us, y, h - 1);
      assert t[x].distance <= t[y].distance + 1;
      assert !t[x].found ==> x in Unfinished(t);
    }
  }
}
