/**
 The chains of previous-router pointers that route construction walks back along.

 Initialisation never clears these pointers, so a router that has become unreachable
 still points to where an earlier run reached it. What makes the walks safe on every
 run is that all chains lead back to us; a run keeps that property, and on a solved
 list the walk from a reached router ends at the first hop of a shortest path to it.
 */
module PrevChains {
  import opened Words
  import opened LinkState
  import opened ShortestPaths

  /** Following at most n previous pointers from v leads to us. */
  predicate Steps(db: Database, s: Labels, us: nat, v: nat, n: nat)
    requires |s| == |db|
    decreases n
  {
    && v < |db|
    && (v == us || (n > 0 && s[v].prev != 0 && Steps(db, s, us, IndexOf(db, s[v].prev), n - 1)))
  }

  ghost predicate LeadsBack(db: Database, s: Labels, us: nat, v: nat)
    requires |s| == |db|
  {
    exists n: nat :: Steps(db, s, us, v, n)
  }

  /** We have no previous router, and every router that has one is chained back to us. */
  ghost predicate Grounded(db: Database, s: Labels, us: nat) {
    && |s| == |db|
    && (us < |db| ==> s[us].prev == 0)
    && (forall v: nat {:trigger LeadsBack(db, s, us, v)} :: v < |db| && s[v].prev != 0 ==> LeadsBack(db, s, us, v))
  }

  // ----- a run keeps the chains grounded

  /** Relaxation changes a previous pointer only together with a shorter distance. */
  lemma {:induction false} RelaxPrev(db: Database, s: Labels, w: nat, k: nat, v: nat)
    requires |s| == |db| && w < |db| && v < |db| && k <= |db[w].interfaces|
    ensures var t := Relax(db, s, w, k);
            && t[v].distance <= s[v].distance
            && (t[v].prev == s[v].prev || (t[v].distance < s[v].distance && !s[v].found))
    decreases k
  {
    if k > 0 {
      RelaxPrev(db, s, w, k - 1, v);
    }
  }

  lemma {:induction false} LoopPrev(db: Database, s: Labels, w: nat, v: nat)
    requires |s| == |db| && w < |db| && v < |db|
    ensures var t := Loop(db, s, w);
            && t[v].distance <= s[v].distance
            && (t[v].prev == s[v].prev || (t[v].distance < s[v].distance && !s[v].found))
    decreases |Unfinished(Mark(s, w))|
  {
    var t := Settle(db, s, w);
    RelaxPrev(db, Mark(s, w), w, |db[w].interfaces|, v);
    var n := Select(t, |t|);
    if n < |t| {
      SettleShrinks(db, s, w);
      LoopPrev(db, t, n, v);
    }
  }

  /** A run leaves our own pointer and those of unreached routers as they were. */
  lemma {:induction false} SolvePrev(db: Database, s: Labels, us: nat, v: nat)
    requires WellFormed(db) && |s| == |db| && us < |db| && v < |db|
    ensures var t := Solve(db, s, db[us].routerId);
            v == us || t[v].distance == INFINITY ==> t[v].prev == s[v].prev
  {
    IndexOfSelf(db, us);
    LoopPrev(db, Init(db, s, db[us].routerId), us, v);
  }

  /** From a reached router the chain has as many steps as its distance. */
  lemma {:induction false} ReachedLeadsBack(db: Database, t: Labels, us: nat, v: nat)
    requires Solved(db, t, us) && v < |db| && t[v].distance < INFINITY
    ensures Steps(db, t, us, v, t[v].distance)
    decreases t[v].distance
  {
    if v != us {
      assert HangsOff(db, t, v);
      ReachedLeadsBack(db, t, us, IndexOf(db, t[v].prev));
      IdNonZero(db, t, us, v);
    }
  }

  lemma {:induction false} IdNonZero(db: Database, t: Labels, us: nat, v: nat)
    requires Solved(db, t, us) && v < |db| && v != us && t[v].distance < INFINITY
    ensures t[v].prev != 0
  {
    assert HangsOff(db, t, v);
  }

  /** A stale chain is followed until it meets a reached router, and from there leads back. */
  lemma {:induction false} StaleLeadsBack(db: Database, s: Labels, t: Labels, us: nat, v: nat, n: nat)
    requires WellFormed(db) && Solved(db, t, us) && |s| == |db|
    requires forall x: nat :: x < |db| && t[x].distance == INFINITY ==> t[x].prev == s[x].prev
    requires Steps(db, s, us, v, n)
    ensures LeadsBack(db, t, us, v)
    decreases n
  {
    if v == us {
      assert Steps(db, t, us, v, 0);
    } else if t[v].distance < INFINITY {
      ReachedLeadsBack(db, t, us, v);
    } else {
      StaleLeadsBack(db, s, t, us, IndexOf(db, s[v].prev), n - 1);
      var m: nat :| Steps(db, t, us, IndexOf(db, s[v].prev), m);
      assert Steps(db, t, us, v, m + 1);
    }
  }

  /** Every run of the shortest-path phase keeps all chains leading back to us. */
  lemma {:induction false} SolveKeepsGrounded(db: Database, s: Labels, us: nat)
    requires WellFormed(db) && |db| <= INFINITY && us < |db| && Grounded(db, s, us)
    ensures Grounded(db, Solve(db, s, db[us].routerId), us)
  {
    var t := Solve(db, s, db[us].routerId);
    SolveCorrect(db, s, us);
    forall x: nat | x < |db|
      ensures x == us || t[x].distance == INFINITY ==> t[x].prev == s[x].prev
    {
      SolvePrev(db, s, us, x);
    }
    forall v: nat | v < |db| && t[v].prev != 0
      ensures LeadsBack(db, t, us, v)
    {
      if t[v].distance < INFINITY {
        ReachedLeadsBack(db, t, us, v);
      } else {
        assert LeadsBack(db, s, us, v);
        var n: nat :| Steps(db, s, us, v, n);
        StaleLeadsBack(db, s, t, us, v, n);
      }
    }
  }

  // ----- walking back to the first hop

  /** The inner loop of route construction: back along the chain until the previous router is the source. */
  function WalkBack(db: Database, s: Labels, us: nat, v: nat, n: nat): (y: nat)
    requires |s| == |db| && Steps(db, s, us, v, n) && v != us && us < |db| && s[us].distance == 0
    ensures y < |db|
    decreases n
  {
    var p := IndexOf(db, s[v].prev);
    assert Steps(db, s, us, p, n - 1);
    if s[p].distance == 0 then v else WalkBack(db, s, us, p, n - 1)
  }

  lemma {:induction false} WalkBackUnique(db: Database, s: Labels, us: nat, v: nat, n: nat, m: nat)
    requires |s| == |db| && v != us && Steps(db, s, us, v, n) && Steps(db, s, us, v, m) && us < |db| && s[us].distance == 0
    ensures WalkBack(db, s, us, v, n) == WalkBack(db, s, us, v, m)
    decreases n
  {
    var p := IndexOf(db, s[v].prev);
    if s[p].distance != 0 {
      WalkBackUnique(db, s, us, p, n - 1, m - 1);
    }
  }

  ghost function FirstHop(db: Database, s: Labels, us: nat, v: nat): (y: nat)
    requires |s| == |db| && v != us && LeadsBack(db, s, us, v) && us < |db| && s[us].distance == 0
    ensures y < |db|
  {
    var n: nat :| Steps(db, s, us, v, n);
    WalkBack(db, s, us, v, n)
  }

  lemma {:induction false} FirstHopIs(db: Database, s: Labels, us: nat, v: nat, n: nat)
    requires |s| == |db| && v != us && Steps(db, s, us, v, n) && us < |db| && s[us].distance == 0
    ensures FirstHop(db, s, us, v) == WalkBack(db, s, us, v, n)
  {
    var m: nat :| Steps(db, s, us, v, m) && FirstHop(db, s, us, v) == WalkBack(db, s, us, v, m);
    WalkBackUnique(db, s, us, v, m, n);
  }

  /** The walk from c ends at a neighbour of ours from which v is one hop nearer. */
  lemma {:induction false} WalkBackCorrect(db: Database, s: Labels, us: nat, c: nat, n: nat, v: nat)
    requires Solved(db, s, us) && c != us && Steps(db, s, us, c, n)
    requires v < |db| && s[c].distance <= s[v].distance < INFINITY
    requires Connected(db, c, v, s[v].distance - s[c].distance)
    ensures var y := WalkBack(db, s, us, c, n);
            Edge(db, us, y) && s[v].distance > 0 && Connected(db, y, v, s[v].distance - 1)
    decreases n
  {
    assert HangsOff(db, s, c);
    var p := IndexOf(db, s[c].prev);
    if s[p].distance == 0 {
      assert MinHops(db, us, p, 0);
    } else {
      ConnectedEdge(db, p, c);
      ConnectedJoin(db, p, c, v, 1, s[v].distance - s[c].distance);
      WalkBackCorrect(db, s, us, p, n - 1, v);
    }
  }

  /** First hop of a reached router: a neighbour of ours, one hop closer to it. */
  lemma {:induction false} FirstHopCorrect(db: Database, s: Labels, us: nat, v: nat)
    requires Solved(db, s, us) && v < |db| && v != us && s[v].distance < INFINITY
    ensures LeadsBack(db, s, us, v)
    ensures var y := FirstHop(db, s, us, v);
            Edge(db, us, y) && s[v].distance > 0 && MinHops(db, y, v, s[v].distance - 1)
  {
    var n := s[v].distance;
    ReachedLeadsBack(db, s, us, v);
    FirstHopIs(db, s, us, v, n);
    assert Connected(db, v, v, 0);
    WalkBackCorrect(db, s, us, v, n, v);
    MinHopsSplit(db, us, FirstHop(db, s, us, v), v, s[v].distance);
  }

  // ----- a second run on an unchanged database

  /** Same distances and marks; pointers agree where a run has set them. */
  ghost predicate Alike(s: Labels, t: Labels) {
    && |s| == |t|
    && forall v: nat :: v < |s| ==>
         s[v].distance == t[v].distance && s[v].found == t[v].found
         && (0 < s[v].distance < INFINITY ==> s[v].prev == t[v].prev)
  }

  lemma {:induction false} SelectAlike(s: Labels, t: Labels, n: nat)
    requires Alike(s, t) && n <= |s|
    ensures Select(s, n) == Select(t, n)
    decreases n
  {
    if n > 0 {
      SelectAlike(s, t, n - 1);
    }
  }

  lemma {:induction false} RelaxAlike(db: Database, s: Labels, t: Labels, w: nat, k: nat)
    requires |s| == |db| && w < |db| && k <= |db[w].interfaces| && Alike(s, t)
    ensures Alike(Relax(db, s, w, k), Relax(db, t, w, k))
    decreases k
  {
    if k > 0 {
      RelaxAlike(db, s, t, w, k - 1);
    }
  }

  lemma {:induction false} LoopAlike(db: Database, s: Labels, t: Labels, w: nat)
    requires |s| == |db| && w < |db| && Alike(s, t)
    ensures Alike(Loop(db, s, w), Loop(db, t, w))
    decreases |Unfinished(Mark(s, w))|
  {
    RelaxAlike(db, Mark(s, w), Mark(t, w), w, |db[w].interfaces|);
    var s', t' := Settle(db, s, w), Settle(db, t, w);
    SelectAlike(s', t', |s'|);
    var n := Select(s', |s'|);
    if n < |s'| {
      SettleShrinks(db, s, w);
      LoopAlike(db, s', t', n);
    }
  }

  /** A second run on an unchanged database changes no label at all, stale pointers included. */
  lemma {:induction false} SolveIdempotent(db: Database, s: Labels, us: nat)
    requires WellFormed(db) && |s| == |db| <= INFINITY && us < |db|
    ensures var t := Solve(db, s, db[us].routerId);
            Solve(db, t, db[us].routerId) == t
  {
    var rid := db[us].routerId;
    IndexOfSelf(db, us);
    var t := Solve(db, s, rid);
    var t' := Solve(db, t, rid);
    SolveCorrect(db, s, us);
    LoopAlike(db, Init(db, s, rid), Init(db, t, rid), us);
    forall v: nat | v < |db|
      ensures t'[v] == t[v]
    {
      SolvePrev(db, t, us, v);
      if t[v].distance == 0 {
        assert MinHops(db, us, v, 0);
      }
    }
  }
}
