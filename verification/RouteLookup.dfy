/**
 Looking up a destination in the routing table: the entry with most mask bits, which in a
 table sorted for the hardware is the first that matches.
 */
module RouteLookup {
  import opened Sequences
  import opened Words
  import opened RouteOrder
  import opened NodeList
  import Q = RouterRecords
  import R = RoutingTable
  import W = RouteWrappers

  /** The number of bits set. */
  function Bits(m: nat): nat {
    if m == 0 then 0 else m % 2 + Bits(m / 2)
  }

  predicate Matches(e: RouteEntry, dest: Uint32) {
    e.isActive && And(e.ip, e.mask) == And(dest, e.mask)
  }

  /** Among the first n entries the first of those that match in most bits, or |t|. */
  function Best(t: Table, dest: Uint32, n: nat): (k: nat)
    requires n <= |t|
    ensures k < n || k == |t|
    ensures k < |t| ==> Matches(t[k], dest)
  {
    if n == 0 then |t|
    else
      var b := Best(t, dest, n - 1);
      if Matches(t[n - 1], dest) && (b == |t| || Bits(t[n - 1].mask) > Bits(t[b].mask)) then n - 1 else b
  }

  /** Position of the first entry that matches, or |t|. */
  function First(t: Table, dest: Uint32): (k: nat)
    ensures k <= |t|
    ensures k < |t| ==> Matches(t[k], dest)
    ensures forall j :: 0 <= j < k ==> !Matches(t[j], dest)
  {
    if t == [] || Matches(t[0], dest) then 0 else 1 + First(t[1..], dest)
  }

  /** The lookup finds nothing exactly when nothing matches; otherwise the longest match, the first among equals. */
  lemma {:induction false} BestIsLongest(t: Table, dest: Uint32, n: nat)
    requires n <= |t|
    ensures var k := Best(t, dest, n);
            && (k == |t| <==> forall j :: 0 <= j < n ==> !Matches(t[j], dest))
            && (k < |t| ==> forall j :: 0 <= j < n && Matches(t[j], dest) ==>
                  if j < k then Bits(t[j].mask) < Bits(t[k].mask) else Bits(t[j].mask) <= Bits(t[k].mask))
  {
    if n > 0 {
      BestIsLongest(t, dest, n - 1);
    }
  }

  // ----- masks that are a prefix

  /** k ones and then n zeros, in binary. */
  function Ones(k: nat, n: nat): nat
    decreases n, k
  {
    if n > 0 then 2 * Ones(k, n - 1)
    else if k > 0 then 2 * Ones(k - 1, 0) + 1
    else 0
  }

  /** The mask of a prefix of k bits. */
  function PrefixMask(k: nat): nat
    requires k <= 32
  {
    Ones(k, 32 - k)
  }

  ghost predicate IsPrefix(m: Uint32) {
    exists k: nat :: k <= 32 && m == PrefixMask(k)
  }

  lemma {:induction false} BitsOnes(k: nat, n: nat)
    ensures Bits(Ones(k, n)) == k
    decreases n, k
  {
    if n > 0 {
      BitsOnes(k, n - 1);
    } else if k > 0 {
      BitsOnes(k - 1, 0);
    }
  }

  lemma {:induction false} BitsPrefix(k: nat)
    requires k <= 32
    ensures Bits(PrefixMask(k)) == k
  {
    BitsOnes(k, 32 - k);
  }

  lemma {:induction false} OneMore(k: nat, n: nat)
    ensures Ones(k, n + 1) < Ones(k + 1, n)
    decreases n
  {
    if n > 0 {
      OneMore(k, n - 1);
    }
  }

  lemma {:induction false} PrefixOrder(j: nat, k: nat)
    requires j < k <= 32
    ensures PrefixMask(j) < PrefixMask(k)
    decreases k - j
  {
    OneMore(j, 32 - j - 1);
    if j + 1 < k {
      PrefixOrder(j + 1, k);
    }
  }

  /** Of two prefix masks the larger number has more bits. */
  lemma {:induction false} LargerIsLonger(a: Uint32, b: Uint32)
    requires IsPrefix(a) && IsPrefix(b)
    ensures a < b <==> Bits(a) < Bits(b)
  {
    var j: nat :| j <= 32 && a == PrefixMask(j);
    var k: nat :| k <= 32 && b == PrefixMask(k);
    hide Bits, PrefixMask, IsPrefix;
    BitsPrefix(j);
    BitsPrefix(k);
    if j < k {
      PrefixOrder(j, k);
    } else if k < j {
      PrefixOrder(k, j);
    }
  }

  // ----- when the longest match is the first

  /** The masks of the entries a lookup considers. */
  ghost function MasksOf(t: Table): set<Uint32> {
    set e | e in t && e.isActive :: e.mask
  }

  /** Of two masks in use the larger number never has fewer bits. */
  ghost predicate Monotone(ms: set<Uint32>) {
    forall a, b :: a in ms && b in ms && a < b ==> Bits(a) <= Bits(b)
  }

  lemma {:induction false} FirstIsBest(t: Table, dest: Uint32)
    requires Sorted(t) && Monotone(MasksOf(t))
    ensures Best(t, dest, |t|) == First(t, dest)
  {
    hide Best, First, Bits, And;
    BestIsLongest(t, dest, |t|);
    var k, f := Best(t, dest, |t|), First(t, dest);
    if f < |t| {
      assert t[f] in t && t[k] in t && !Worse(t[f], t[k]);
      assert t[f].mask in MasksOf(t) && t[k].mask in MasksOf(t);
    }
  }

  /** Two entries for the same address in which the one with fewer bits stands first. */
  lemma {:induction false} FewerBitsFirst(a: Uint32, b: Uint32) returns (t: Table)
    requires a < b && Bits(a) > Bits(b)
    ensures Sorted(t) && MasksOf(t) == {a, b} && First(t, 0) == 0 && Best(t, 0, |t|) == 1
  {
    var d, e := RouteEntry(0, 0, b, "", false, true), RouteEntry(0, 0, a, "", false, true);
    t := [d, e];
    hide Bits;
    assert Matches(d, 0) && Matches(e, 0);
    assert Best(t, 0, 1) == 0;
    assert t[0] == d && t[1] == e;
  }

  /**
   In every sorted table with these masks every lookup finds the first match, exactly when
   of two of the masks the larger number never has fewer bits.
   */
  lemma {:induction false} LongestIsFirst(ms: set<Uint32>)
    ensures (forall t: Table, dest: Uint32 {:trigger First(t, dest)} ::
               Sorted(t) && MasksOf(t) <= ms ==> Best(t, dest, |t|) == First(t, dest))
            <==> Monotone(ms)
  {
    hide Bits, Best, First, Sorted, MasksOf;
    if Monotone(ms) {
      forall t: Table, dest: Uint32 | Sorted(t) && MasksOf(t) <= ms
        ensures Best(t, dest, |t|) == First(t, dest)
      {
        FirstIsBest(t, dest);
      }
    } else {
      var a, b :| a in ms && b in ms && a < b && Bits(a) > Bits(b);
      var t := FewerBitsFirst(a, b);
      assert First(t, 0) != Best(t, 0, |t|);
    }
  }

  /** The masks 3 and 4 are such a pair. */
  lemma {:induction false} OddMasksDiffer()
    ensures exists t, dest :: Sorted(t) && MasksOf(t) == {3, 4} && First(t, dest) != Best(t, dest, |t|)
  {
    assert Bits(3) == 2 && Bits(4) == 1 by {
      assert Bits(1) == 1 && Bits(2) == 1;
    }
    var t := FewerBitsFirst(3, 4);
  }

  /** Prefix masks qualify. */
  lemma {:induction false} PrefixesAreMonotone(ms: set<Uint32>)
    requires forall m :: m in ms ==> IsPrefix(m)
    ensures Monotone(ms)
  {
    forall a, b | a in ms && b in ms && a < b
      ensures Bits(a) <= Bits(b)
    {
      LargerIsLonger(a, b);
    }
  }

  /** In a sorted table whose active masks are prefixes the longest match is the first match. */
  lemma {:induction false} FirstIsLongest(t: Table, dest: Uint32)
    requires Sorted(t) && forall e :: e in t && e.isActive ==> IsPrefix(e.mask)
    ensures Best(t, dest, |t|) == First(t, dest)
  {
    PrefixesAreMonotone(MasksOf(t));
    FirstIsBest(t, dest);
  }

  // ----- the lookup

  function Pow2(k: nat): (p: nat)
    ensures p > 0
  {
    if k == 0 then 1 else 2 * Pow2(k - 1)
  }

  lemma {:induction false} Power32()
    ensures Pow2(32) == 0x1_0000_0000
  {
    assert Pow2(8) == 0x100 by {
      assert Pow2(4) == 0x10;
    }
    assert Pow2(16) == 0x1_0000 by {
      assert Pow2(12) == 0x1000;
    }
    assert Pow2(24) == 0x100_0000 by {
      assert Pow2(20) == 0x10_0000;
    }
    assert Pow2(28) == 0x1000_0000;
  }

  method CountBits(mask: Uint32) returns (bits: nat)
    ensures bits == Bits(mask)
  {
    var rest: nat := mask;
    bits := 0;
    Power32();
    for i := 0 to 32
      invariant bits + Bits(rest) == Bits(mask) && rest < Pow2(32 - i)
    {
      if rest % 2 == 1 {
        bits := bits + 1;
      }
      rest := rest / 2;
    }
  }

  /** Entry k is active, has the destination on its prefix, and is the first of the longest that do. */
  ghost predicate LongestFor(t: Table, dest: Uint32, k: nat) {
    && k < |t| && t[k].isActive && And(t[k].ip, t[k].mask) == And(dest, t[k].mask)
    && forall j :: 0 <= j < |t| && t[j].isActive && And(t[j].ip, t[j].mask) == And(dest, t[j].mask) ==>
         if j < k then Bits(t[j].mask) < Bits(t[k].mask) else Bits(t[j].mask) <= Bits(t[k].mask)
  }

  ghost predicate NoneFor(t: Table, dest: Uint32) {
    forall e :: e in t && e.isActive ==> And(e.ip, e.mask) != And(dest, e.mask)
  }

  lemma {:induction false} BestIsLongestFor(t: Table, dest: Uint32)
    ensures var k := Best(t, dest, |t|);
            if k < |t| then LongestFor(t, dest, k)
            else NoneFor(t, dest)
  {
    BestIsLongest(t, dest, |t|);
    hide And, Bits, Best;
  }

  lemma {:induction false} BestNext(t: Table, dest: Uint32, i: nat)
    requires i < |t|
    ensures var e, b := t[i], Best(t, dest, i);
            Best(t, dest, i + 1) ==
              if e.isActive && And(e.ip, e.mask) == And(dest, e.mask) && (b == |t| || Bits(e.mask) > Bits(t[b].mask))
              then i else b
  {
  }

  /** The next hop and interface of the longest match; a route without gateway leads to the destination itself. */
  method GetNextHop(head: Node?, ghost ns: seq<Node>, dest: Uint32)
    returns (found: bool, nextHop: Uint32, iface: string)
    requires Linked(head, ns)
    ensures var t := DataOf(ns);
            var k := Best(t, dest, |t|);
            && (found <==> k < |t|)
            && (found ==> iface == t[k].iface && nextHop == if t[k].gw == 0 then dest else t[k].gw)
  {
    LinkedStarts(head, ns);
    ghost var t := DataOf(ns);
    ghost var i: nat := 0;
    ghost var b := Best(t, dest, 0);
    assert b == |t|;
    hide *;
    AtMeans(ns, 0);
    var n := head;
    var lpm: Node? := null;
    var mostBits: int := -1;
    while n != null
      invariant 0 <= i <= |ns| && n == At(ns, i) && b == Best(t, dest, i)
      invariant if b == |t| then lpm == null && mostBits == -1 else lpm == ns[b] && mostBits == Bits(t[b].mask)
      decreases |ns| - i
    {
      BestNext(t, dest, i);
      var re := n.data;
      if re.isActive && And(re.ip, re.mask) == And(dest, re.mask) {
        var bits := CountBits(re.mask);
        if bits > mostBits {
          lpm, mostBits := n, bits;
        }
      }
      LinkedNext(head, ns, i);
      AtMeans(ns, i + 1);
      n, i := n.next, i + 1;
      b := Best(t, dest, i);
    }
    found, nextHop, iface := false, 0, "";
    if lpm != null {
      found, iface := true, lpm.data.iface;
      nextHop := if lpm.data.gw == 0 then dest else lpm.data.gw;
    }
  }

  // ----- the hardware copy

  datatype Row = Row(ip: Uint32, mask: Uint32, gw: Uint32, port: Uint32)

  const EMPTY := Row(0, 0, 0, 0)

  function RowOf(e: RouteEntry, port: string -> Uint32): Row {
    Row(e.ip, e.mask, e.gw, port(e.iface))
  }

  function ActiveOf(t: Table): (u: Table)
    ensures forall e :: e in u ==> e.isActive
  {
    if t == [] then []
    else (if t[0].isActive then [t[0]] else []) + ActiveOf(t[1..])
  }

  lemma {:induction false} ActiveStep(t: Table, p: nat)
    requires p < |t|
    ensures ActiveOf(t[p..]) == (if t[p].isActive then [t[p]] else []) + ActiveOf(t[p + 1..])
  {
    assert t[p..][1..] == t[p + 1..];
  }

  lemma {:induction false} ActiveSnoc(t: Table, x: RouteEntry)
    ensures ActiveOf(t + [x]) == ActiveOf(t) + (if x.isActive then [x] else [])
  {
    if t == [] {
      assert [] + [x] == [x] && [x][1..] == [];
    } else {
      ActiveSnoc(t[1..], x);
      var first := if t[0].isActive then [t[0]] else [];
      assert (t + [x])[1..] == t[1..] + [x] && (t + [x])[0] == t[0];
      assert ActiveOf(t + [x]) == first + ActiveOf(t[1..] + [x]);
      assert ActiveOf(t) == first + ActiveOf(t[1..]);
      hide ActiveOf;
    }
  }

  /** They are the entries at the positions of active ones, in order. */
  lemma {:induction false} ActivePicks(t: Table) returns (at: seq<nat>)
    ensures Picks(ActiveOf(t), t, at) && forall j: nat :: j < |t| ==> (j in at <==> t[j].isActive)
  {
    at := [];
    if t != [] {
      var n := |t| - 1;
      at := ActivePicks(t[..n]);
      assert t == t[..n] + [t[n]];
      ActiveSnoc(t[..n], t[n]);
      PicksSnoc(ActiveOf(t[..n]), t[..n], at, t[n]);
      if t[n].isActive {
        at := at + [n];
      }
    }
  }

  /** The rows have address, mask, gateway and port of each active entry in turn, as far as they go, then zeros. */
  ghost predicate RowsShow(rows: seq<Row>, t: Table, port: string -> Uint32, at: seq<nat>) {
    && Rising(at, |t|) && (forall j: nat :: j < |t| ==> (j in at <==> t[j].isActive))
    && forall i :: 0 <= i < |rows| ==>
         if i < |at| then
           var e, r := t[at[i]], rows[i];
           r.ip == e.ip && r.mask == e.mask && r.gw == e.gw && r.port == port(e.iface)
         else rows[i] == Row(0, 0, 0, 0)
  }

  lemma {:induction false} RowsAreShown(t: Table, port: string -> Uint32, depth: nat) returns (at: seq<nat>)
    ensures RowsShow(RowsOf(t, port, depth), t, port, at)
  {
    at := ActivePicks(t);
    hide ActiveOf;
  }

  /** The active entries in table order, then empty rows. */
  function RowAt(t: Table, port: string -> Uint32, i: nat): Row {
    if i < |ActiveOf(t)| then RowOf(ActiveOf(t)[i], port) else EMPTY
  }

  function RowsOf(t: Table, port: string -> Uint32, depth: nat): (rows: seq<Row>)
    ensures |rows| == depth && forall i :: 0 <= i < depth ==> rows[i] == RowAt(t, port, i)
  {
    seq(depth, i requires 0 <= i < depth => RowAt(t, port, i))
  }

  /** The lookup hardware takes the first row that matches. */
  function FirstRow(rows: seq<Row>, dest: Uint32): (k: nat)
    ensures k <= |rows|
    ensures k < |rows| ==> And(rows[k].ip, rows[k].mask) == And(dest, rows[k].mask)
    ensures forall j :: 0 <= j < k ==> And(rows[j].ip, rows[j].mask) != And(dest, rows[j].mask)
  {
    if rows == [] || And(rows[0].ip, rows[0].mask) == And(dest, rows[0].mask) then 0
    else 1 + FirstRow(rows[1..], dest)
  }

  lemma {:induction false} FirstActive(t: Table, dest: Uint32)
    ensures var k, a := First(t, dest), ActiveOf(t);
            var j := First(a, dest);
            if k < |t| then j < |a| && a[j] == t[k] else j == |a|
  {
    if t != [] {
      var x, u := t[0], t[1..];
      var rest := ActiveOf(u);
      FirstActive(u, dest);
      FirstCons(x, u, dest);
      FirstCons(x, rest, dest);
      MatchIsActive(x, dest);
      assert ActiveOf(t) == (if x.isActive then [x] else []) + rest;
      hide ActiveOf, First, Matches;
      assert t == [x] + u && [] + rest == rest;
    }
  }

  lemma {:induction false} FirstCons(x: RouteEntry, t: Table, dest: Uint32)
    ensures First([x] + t, dest) == if Matches(x, dest) then 0 else 1 + First(t, dest)
  {
    hide Matches;
    assert ([x] + t)[1..] == t;
  }

  lemma {:induction false} MatchIsActive(e: RouteEntry, dest: Uint32)
    ensures Matches(e, dest) ==> e.isActive
  {
  }

  lemma {:induction false} FirstRowIs(a: Table, rows: seq<Row>, dest: Uint32)
    requires |a| <= |rows|
    requires forall i :: 0 <= i < |a| ==>
      (Matches(a[i], dest) <==> And(rows[i].ip, rows[i].mask) == And(dest, rows[i].mask))
    ensures if First(a, dest) < |a| then FirstRow(rows, dest) == First(a, dest) else FirstRow(rows, dest) >= |a|
  {
    hide Matches, And, First, FirstRow;
  }

  /**
   Once the table is sorted, and while its active entries fit and of two of their masks the
   larger number never has fewer bits, the first row the hardware matches is that of the
   entry the software looks up; if there is none it is an empty row, or none at all.
   */
  lemma {:induction false} HardwareForwardsAlike(t: Table, port: string -> Uint32, depth: nat, dest: Uint32)
    requires Sorted(t) && Monotone(MasksOf(t))
    requires |ActiveOf(t)| <= depth
    ensures var rows, k := RowsOf(t, port, depth), Best(t, dest, |t|);
            var r := FirstRow(rows, dest);
            if k < |t| then
              && r < depth && rows[r] == RowOf(t[k], port)
              && rows[r].gw == t[k].gw && rows[r].port == port(t[k].iface)
            else r == depth || rows[r] == EMPTY
  {
    FirstIsBest(t, dest);
    FirstActive(t, dest);
    var a, rows := ActiveOf(t), RowsOf(t, port, depth);
    hide First, FirstRow, And, Best, Sorted;
    forall i | 0 <= i < |a|
      ensures Matches(a[i], dest) <==> And(rows[i].ip, rows[i].mask) == And(dest, rows[i].mask)
    {
      assert a[i] in a && rows[i] == RowAt(t, port, i) == RowOf(a[i], port);
    }
    FirstRowIs(a, rows, dest);
    hide ActiveOf, Matches, Monotone;
  }

  /** The first active node from p on, or the end of the list. */
  method SkipInactive(from: Node?, ghost ns: seq<Node>, ghost head: Node?, ghost p: nat)
    returns (cur: Node?, ghost q: nat)
    requires Linked(head, ns) && from == At(ns, p) && p <= |ns|
    ensures p <= q <= |ns| && cur == At(ns, q)
    ensures var t := DataOf(ns);
            ActiveOf(t[q..]) == ActiveOf(t[p..]) && (q < |ns| ==> t[q].isActive)
  {
    ghost var t := DataOf(ns);
    cur, q := from, p;
    while cur != null && !cur.data.isActive
      invariant p <= q <= |ns| && cur == At(ns, q) && ActiveOf(t[q..]) == ActiveOf(t[p..])
      decreases |ns| - q
    {
      ActiveStep(t, q);
      assert ns[q].next == At(ns, q + 1);
      cur, q := cur.next, q + 1;
    }
  }

  /** Writes every row of the hardware table. */
  method WriteRtableToHw(head: Node?, ghost ns: seq<Node>, port: string -> Uint32, rows: array<Row>)
    requires Linked(head, ns)
    modifies rows
    ensures rows[..] == RowsOf(DataOf(ns), port, rows.Length)
    ensures exists at :: RowsShow(rows[..], DataOf(ns), port, at)
  {
    hide Linked, ActiveOf, RowAt, RowOf, RowsOf, Remaining, DataOf;
    ghost var t := DataOf(ns);
    ghost var p: nat := 0;
    var cur: Node? := head;
    RemainingStarts(t);
    LinkedStarts(head, ns);
    cur, p := SkipInactive(cur, ns, head, p);
    var i := 0;
    while i < rows.Length
      invariant i <= rows.Length && p <= |ns| && cur == At(ns, p) && (p < |ns| ==> t[p].isActive)
      invariant ActiveOf(t[p..]) == Remaining(t, i)
      invariant forall k :: 0 <= k < i ==> rows[k] == RowAt(t, port, k)
    {
      RowComes(t, port, i, p);
      if cur != null {
        rows[i] := RowOf(cur.data, port);
        LinkedNext(head, ns, p);
        cur, p := SkipInactive(cur.next, ns, head, p + 1);
      } else {
        rows[i] := EMPTY;
      }
      i := i + 1;
    }
    assert forall k :: 0 <= k < rows.Length ==> rows[..][k] == RowsOf(t, port, rows.Length)[k];
    ghost var at := RowsAreShown(t, port, rows.Length);
  }

  /** After a change: the table is sorted, and the hardware rewritten from it. */
  method TriggerRtableModified(head: Node?, ghost ns: seq<Node>, isNetfpga: bool, port: string -> Uint32,
      rows: array<Row>)
    requires Linked(head, ns)
    modifies ns`data, rows
    ensures Linked(head, ns) && Sorted(DataOf(ns)) && Stable(old(DataOf(ns)), DataOf(ns))
    ensures rows[..] == if isNetfpga then RowsOf(DataOf(ns), port, rows.Length) else old(rows[..])
  {
    hide Sorted, Stable;
    R.SortTable(head, ns);
    if isNetfpga {
      WriteRtableToHw(head, ns, port, rows);
    }
  }

  lemma {:induction false} RunnableIsListed(routers: seq<Q.Router>, rid: Uint32)
    requires R.Runnable(routers, rid)
    ensures Q.Listed(routers)
  {
  }

  /** A round of the route computation, with the hardware rewritten from the new table. */
  method DijkstraRoundOnCard(rs: R.RouterState, isNetfpga: bool, port: string -> Uint32, rows: array<Row>)
    returns (ok: bool)
    requires Linked(rs.rtable, rs.nodes) && R.Runnable(rs.routers, rs.routerId)
    modifies rs, rs.nodes, rows, rs.routers`distance, rs.routers`shortestPathFound, rs.routers`prevRouter
    ensures R.Runnable(rs.routers, rs.routerId) && W.Ready(Q.DatabaseOf(rs.routers), Q.LabelsOf(rs.routers), rs.Us())
    ensures ok ==> Linked(rs.rtable, rs.nodes) && Sorted(DataOf(rs.nodes))
    ensures ok ==> R.RoundResult(Q.DatabaseOf(rs.routers), Q.LabelsOf(rs.routers), rs.Us(), rs.ifList,
                                 old(DataOf(rs.nodes)), DataOf(rs.nodes))
    ensures rows[..] == if ok && isNetfpga then RowsOf(DataOf(rs.nodes), port, rows.Length) else old(rows[..])
  {
    hide *;
    ghost var t := DataOf(rs.nodes);
    ok := rs.DijkstraRound();
    RunnableIsListed(rs.routers, rs.routerId);
    if ok {
      R.RoundKeepsStatics(Q.DatabaseOf(rs.routers), Q.LabelsOf(rs.routers), rs.Us(), rs.ifList, t, DataOf(rs.nodes));
      if isNetfpga {
        WriteRtableToHw(rs.rtable, rs.nodes, port, rows);
      }
    }
  }

  /** The active entries from number i on. */
  function Remaining(t: Table, i: nat): Table {
    if i <= |ActiveOf(t)| then ActiveOf(t)[i..] else []
  }

  lemma {:induction false} RemainingStarts(t: Table)
    ensures ActiveOf(t[0..]) == Remaining(t, 0)
  {
    assert t[0..] == t;
  }

  /** Row i is for the entry at the cursor, or empty when the cursor is at the end. */
  lemma {:induction false} RowComes(t: Table, port: string -> Uint32, i: nat, p: nat)
    requires p <= |t| && ActiveOf(t[p..]) == Remaining(t, i) && (p < |t| ==> t[p].isActive)
    ensures RowAt(t, port, i) == if p < |t| then RowOf(t[p], port) else EMPTY
    ensures p < |t| ==> ActiveOf(t[p + 1..]) == Remaining(t, i + 1)
    ensures p == |t| ==> ActiveOf(t[p..]) == Remaining(t, i + 1)
  {
    if p < |t| {
      ActiveStep(t, p);
      var a := ActiveOf(t);
      assert i < |a| && a[i..][0] == t[p] && a[i..][1..] == a[i + 1..];
    } else {
      assert t[p..] == [];
    }
  }
}
