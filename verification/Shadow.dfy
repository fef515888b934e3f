/**
 The shadowing daemon: after every poll the card's routing, ARP and destination filter
 tables show what Linux shows for the card's interfaces.

 A table row is written through staging registers and committed at an address. What the
 hardware does with an address beyond the last row is left open: a table either ignores
 it or wraps around, and everything below holds for both.
 */
module Shadow {
  import opened Sequences
  import opened Words
  import A = ArpCache

  const DEPTH := 32
  const ANY_MASK: Uint32 := 0xFFFF_FFFF
  const OSPF_IP: Uint32 := 0xE000_0005

  type Row = seq<Uint32>

  datatype Route = Route(dest: Uint32, gw: Uint32, mask: Uint32, dev: string)
  datatype ArpLine = ArpLine(ip: Uint32, mac: A.Mac, dev: string)
  datatype Iface = Iface(ip: Uint32, mac: A.Mac, name: string)

  // ----- a table as a value

  function Committed(rows: seq<Row>, addr: nat, row: Row, wraps: bool): (r: seq<Row>)
    requires |rows| == DEPTH
    ensures |r| == DEPTH
  {
    if addr < DEPTH then rows[addr := row]
    else if wraps then rows[addr % DEPTH := row]
    else rows
  }

  /** New rows written at addresses 0, 1, 2 and so on. */
  function Written(rows: seq<Row>, news: seq<Row>, wraps: bool): (r: seq<Row>)
    requires |rows| == DEPTH
    ensures |r| == DEPTH
    decreases |news|
  {
    if news == [] then rows
    else
      var n := |news| - 1;
      Committed(Written(rows, news[..n], wraps), n, news[n], wraps)
  }

  function Copies(row: Row, n: nat): (rs: seq<Row>)
    ensures |rs| == n && forall i :: 0 <= i < n ==> rs[i] == row
  {
    seq(n, _ => row)
  }

  /** An update: n rows are cleared, then the new ones are written. */
  function Rewritten(rows: seq<Row>, n: nat, clear: Row, news: seq<Row>, wraps: bool): (r: seq<Row>)
    requires |rows| == DEPTH
    ensures |r| == DEPTH
  {
    Written(Written(rows, Copies(clear, n), wraps), news, wraps)
  }

  lemma {:induction false} WrittenSnoc(rows: seq<Row>, news: seq<Row>, n: nat, wraps: bool)
    requires |rows| == DEPTH && n < |news|
    ensures Written(rows, news[..n + 1], wraps) == Committed(Written(rows, news[..n], wraps), n, news[n], wraps)
  {
    assert news[..n + 1][..n] == news[..n];
  }

  lemma {:induction false} WrittenAt(rows: seq<Row>, news: seq<Row>, wraps: bool, i: nat)
    requires |rows| == DEPTH && |news| <= DEPTH && i < DEPTH
    ensures Written(rows, news, wraps)[i] == if i < |news| then news[i] else rows[i]
    decreases |news|
  {
    if news != [] {
      WrittenAt(rows, news[..|news| - 1], wraps, i);
    }
  }

  /** Clearing reaches every row that lies within the count, whatever overlong addresses do. */
  lemma {:induction false} ClearedAt(rows: seq<Row>, clear: Row, n: nat, wraps: bool, i: nat)
    requires |rows| == DEPTH && i < DEPTH
    ensures Written(rows, Copies(clear, n), wraps)[i] == if i < n then clear else rows[i]
    decreases n
  {
    if n > 0 {
      ClearedAt(rows, clear, n - 1, wraps, i);
      assert Copies(clear, n)[..n - 1] == Copies(clear, n - 1);
    }
  }

  /** What the rows hold for the given entries: below `high` nothing else is left, above it what was there first. */
  ghost predicate Shadows(rows: seq<Row>, entries: seq<Row>, clear: Row, high: nat, first: seq<Row>) {
    && |rows| == |first| == DEPTH && |entries| <= high
    && (|entries| <= DEPTH ==>
          forall i :: 0 <= i < DEPTH ==>
            rows[i] == if i < |entries| then entries[i] else if i < high then clear else first[i])
  }

  function Max(a: nat, b: nat): nat {
    if a < b then b else a
  }

  /** An update replaces the shadow of the old entries by that of the new ones. */
  lemma {:induction false} UpdateShadows(rows: seq<Row>, olds: seq<Row>, news: seq<Row>, clear: Row,
      high: nat, first: seq<Row>, wraps: bool)
    requires Shadows(rows, olds, clear, high, first)
    ensures Shadows(Rewritten(rows, |olds|, clear, news, wraps), news, clear, Max(high, |news|), first)
  {
    if |news| <= DEPTH {
      var cleared := Written(rows, Copies(clear, |olds|), wraps);
      forall i | 0 <= i < DEPTH
        ensures Written(cleared, news, wraps)[i] ==
                if i < |news| then news[i] else if i < Max(high, |news|) then clear else first[i]
      {
        WrittenAt(cleared, news, wraps, i);
        ClearedAt(rows, clear, |olds|, wraps, i);
      }
    }
  }

  /** A table that was clear at first has no mark. */
  lemma {:induction false} ShadowsHigher(rows: seq<Row>, entries: seq<Row>, clear: Row, high: nat, mark: nat)
    requires Shadows(rows, entries, clear, high, Copies(clear, DEPTH)) && |entries| <= mark
    ensures Shadows(rows, entries, clear, mark, Copies(clear, DEPTH))
  {
  }

  /** The rows of a table that holds these entries and nothing else. */
  function Exactly(entries: seq<Row>, clear: Row): (rows: seq<Row>)
    requires |entries| <= DEPTH
    ensures |rows| == DEPTH
  {
    entries + Copies(clear, DEPTH - |entries|)
  }

  /** The table holds the entries and nothing else exactly when no row that was never written held anything at first. */
  lemma {:induction false} ShadowsExactly(rows: seq<Row>, entries: seq<Row>, clear: Row, high: nat, first: seq<Row>)
    requires Shadows(rows, entries, clear, high, first) && |entries| <= DEPTH
    ensures rows == Exactly(entries, clear) <==> forall i :: high <= i < DEPTH ==> first[i] == clear
  {
    var x := Exactly(entries, clear);
    assert forall i :: 0 <= i < DEPTH ==> x[i] == if i < |entries| then entries[i] else clear;
    if forall i :: high <= i < DEPTH ==> first[i] == clear {
      assert forall i :: 0 <= i < DEPTH ==> rows[i] == x[i];
    } else {
      var i :| high <= i < DEPTH && first[i] != clear;
      assert rows[i] != x[i];
    }
  }

  // ----- the destination filter, whose last row is left behind by updates

  const NO_IP: Row := [0]

  function FilterRows(ifs: seq<Iface>): (rs: seq<Row>)
    ensures |rs| == |ifs| + 1 && rs[|ifs|] == [OSPF_IP]
    ensures forall i :: 0 <= i < |ifs| ==> rs[i] == [ifs[i].ip]
  {
    seq(|ifs|, i requires 0 <= i < |ifs| => [ifs[i].ip]) + [[OSPF_IP]]
  }

  /** Rows of the current interfaces and the OSPF row, then rows that are clear or old OSPF rows. */
  ghost predicate Filters(rows: seq<Row>, ifs: seq<Iface>, written: bool) {
    && |rows| == DEPTH && (!written ==> ifs == [] && rows == Copies(NO_IP, DEPTH))
    && (forall i :: 0 <= i < |ifs| < DEPTH ==> rows[i] == [ifs[i].ip])
    && (|ifs| < DEPTH && written ==> rows[|ifs|] == [OSPF_IP])
    && (forall i :: |ifs| < i < DEPTH ==> rows[i] == NO_IP || rows[i] == [OSPF_IP])
  }

  lemma {:induction false} UpdateFilters(rows: seq<Row>, olds: seq<Iface>, news: seq<Iface>, written: bool, wraps: bool)
    requires Filters(rows, olds, written)
    ensures Filters(Rewritten(rows, |olds|, NO_IP, FilterRows(news), wraps), news, true)
  {
    if |news| < DEPTH {
      var cleared := Written(rows, Copies(NO_IP, |olds|), wraps);
      forall i | 0 <= i < DEPTH
        ensures Written(cleared, FilterRows(news), wraps)[i] == if i <= |news| then FilterRows(news)[i] else cleared[i]
        ensures cleared[i] == NO_IP || cleared[i] == [OSPF_IP]
      {
        WrittenAt(cleared, FilterRows(news), wraps, i);
        ClearedAt(rows, NO_IP, |olds|, wraps, i);
        assert i == |olds| ==> rows[i] == NO_IP || rows[i] == [OSPF_IP];
      }
    }
  }

  function IpsOf(rows: seq<Row>): set<Uint32>
    requires forall r :: r in rows ==> |r| == 1
  {
    set r | r in rows && r != NO_IP :: r[0]
  }

  function Addresses(ifs: seq<Iface>): set<Uint32> {
    set f | f in ifs && f.ip != 0 :: f.ip
  }

  /** As a set, the filter is the interfaces' addresses and the OSPF address, old rows or not. */
  lemma {:induction false} FilterIsSet(rows: seq<Row>, ifs: seq<Iface>)
    requires Filters(rows, ifs, true) && |ifs| < DEPTH
    ensures forall r :: r in rows ==> |r| == 1
    ensures IpsOf(rows) == Addresses(ifs) + {OSPF_IP}
  {
    forall i | 0 <= i < DEPTH
      ensures |rows[i]| == 1 && (rows[i] == NO_IP || rows[i][0] in Addresses(ifs) + {OSPF_IP})
    {
      assert i < |ifs| ==> rows[i] == [ifs[i].ip] && ifs[i] in ifs;
    }
    forall x | x in Addresses(ifs) + {OSPF_IP}
      ensures x in IpsOf(rows)
    {
      if x == OSPF_IP {
        assert rows[|ifs|] == [x] && rows[|ifs|] in rows;
      } else {
        var i :| 0 <= i < |ifs| && ifs[i].ip == x;
        assert rows[i] == [x] && rows[i] in rows;
      }
    }
  }

  // ----- the card

  class Table {
    const wraps: bool
    var staged: Row
    var rows: seq<Row>

    constructor (wraps: bool, width: nat, rows: seq<Row>)
      requires |rows| == DEPTH
      ensures this.wraps == wraps && this.rows == rows && |staged| == width
    {
      this.wraps, this.rows := wraps, rows;
      staged := seq(width, _ => 0);
    }

    method WriteReg(reg: nat, val: Uint32)
      requires reg < |staged|
      modifies this`staged
      ensures staged == old(staged)[reg := val]
    {
      staged := staged[reg := val];
    }

    method WriteAddr(addr: nat)
      requires |rows| == DEPTH
      modifies this`rows
      ensures rows == Committed(old(rows), addr, staged, wraps)
    {
      if addr < DEPTH {
        rows := rows[addr := staged];
      } else if wraps {
        rows := rows[addr % DEPTH := staged];
      }
    }

    /** Stages every register of a row and commits it. */
    method WriteRow(addr: nat, row: Row)
      requires |rows| == DEPTH && |row| == |staged|
      modifies this
      ensures |staged| == old(|staged|) && rows == Committed(old(rows), addr, row, wraps)
    {
      var i := 0;
      while i < |row|
        invariant i <= |row| == |staged| && staged[..i] == row[..i] && rows == old(rows)
      {
        WriteReg(i, row[i]);
        i := i + 1;
      }
      assert staged == row;
      WriteAddr(addr);
    }

    method ClearRows(n: nat, clear: Row)
      requires |rows| == DEPTH && |clear| == |staged|
      modifies this
      ensures |staged| == old(|staged|) && rows == Written(old(rows), Copies(clear, n), wraps)
    {
      var i := 0;
      ghost var cs := Copies(clear, n);
      while i < n
        invariant i <= n && |staged| == |clear| && |rows| == DEPTH
        invariant rows == Written(old(rows), cs[..i], wraps)
      {
        WrittenSnoc(old(rows), cs, i, wraps);
        WriteRow(i, clear);
        i := i + 1;
      }
      assert cs[..n] == cs;
    }
  }

  // ----- the monitor

  function RouteRow(r: Route, ports: map<string, Uint32>): Row
    requires r.dev in ports
  {
    [r.dest, r.mask, r.gw, ports[r.dev]]
  }

  const NO_ROUTE: Row := [0, ANY_MASK, 0, 0]

  function ArpRow(a: ArpLine): Row {
    [a.ip, A.HighPart(a.mac), A.LowPart(a.mac)]
  }

  const NO_ARP: Row := [0, 0, 0]

  function RouteDev(r: Route): string { r.dev }

  function ArpDev(a: ArpLine): string { a.dev }

  function IfaceDev(f: Iface): string { f.name }

  /** The lines that concern the card's interfaces, in order. */
  function OnCard<T>(xs: seq<T>, dev: T -> string, ports: map<string, Uint32>): (us: seq<T>)
    ensures forall x :: x in us ==> x in xs && dev(x) in ports
  {
    if xs == [] then []
    else
      var n := |xs| - 1;
      OnCard(xs[..n], dev, ports) + (if dev(xs[n]) in ports then [xs[n]] else [])
  }

  /** They are the lines at the positions of the card's interfaces, in order and no others. */
  lemma {:induction false} OnCardPicks<T>(xs: seq<T>, dev: T -> string, ports: map<string, Uint32>) returns (at: seq<nat>)
    ensures Picks(OnCard(xs, dev, ports), xs, at)
    ensures forall j: nat :: j < |xs| ==> (j in at <==> dev(xs[j]) in ports)
  {
    at := [];
    if xs != [] {
      var n := |xs| - 1;
      at := OnCardPicks(xs[..n], dev, ports);
      assert xs == xs[..n] + [xs[n]];
      PicksSnoc(OnCard(xs[..n], dev, ports), xs[..n], at, xs[n]);
      if dev(xs[n]) in ports {
        at := at + [n];
      }
    }
  }

  /** Each line on the card is kept as often as it occurs. */
  lemma {:induction false} OnCardCounts<T>(xs: seq<T>, dev: T -> string, ports: map<string, Uint32>, x: T)
    ensures multiset(OnCard(xs, dev, ports))[x] == if dev(x) in ports then multiset(xs)[x] else 0
  {
    if xs != [] {
      var n := |xs| - 1;
      OnCardCounts(xs[..n], dev, ports, x);
      assert xs == xs[..n] + [xs[n]];
    }
  }

  function RouteRows(rs: seq<Route>, ports: map<string, Uint32>): (rows: seq<Row>)
    requires forall r :: r in rs ==> r.dev in ports
    ensures |rows| == |rs| && forall i :: 0 <= i < |rs| ==> rows[i] == RouteRow(rs[i], ports)
  {
    seq(|rs|, i requires 0 <= i < |rs| => RouteRow(rs[i], ports))
  }

  function ArpRows(rs: seq<ArpLine>): (rows: seq<Row>)
    ensures |rows| == |rs| && forall i :: 0 <= i < |rs| ==> rows[i] == ArpRow(rs[i])
  {
    seq(|rs|, i requires 0 <= i < |rs| => ArpRow(rs[i]))
  }

  /** The MAC registers of the card's four ports after an interface list has been written. */
  function PortMacs(macs: seq<A.Mac>, ifs: seq<Iface>): (ms: seq<A.Mac>)
    requires |macs| == 4
    ensures |ms| == 4
  {
    seq(4, i requires 0 <= i < 4 => if i < |ifs| then ifs[i].mac else macs[i])
  }

  class Monitor {
    const ports: map<string, Uint32>
    const routes: Table
    const arps: Table
    const filter: Table
    var macs: seq<A.Mac>
    var rt: seq<Route>
    var at: seq<ArpLine>
    var ifl: seq<Iface>
    /** Rows of the ARP table once the daemon has started, and how many it has ever used. */
    ghost const firstArps: seq<Row>
    ghost var arpHigh: nat
    ghost var filtered: bool

    ghost predicate Valid()
      reads this, routes, arps, filter
    {
      && routes != arps && arps != filter && routes != filter
      && |routes.staged| == 4 && |arps.staged| == 3 && |filter.staged| == 1 && |macs| == 4 && |at| <= arpHigh
      && (forall r :: r in rt ==> r.dev in ports)
      && Shadows(routes.rows, RouteRows(rt, ports), NO_ROUTE, DEPTH + |rt|, Copies(NO_ROUTE, DEPTH))
      && Shadows(arps.rows, ArpRows(at), NO_ARP, arpHigh, firstArps)
      && Filters(filter.rows, ifl, filtered)
      && (forall i :: 0 <= i < |ifl| && i < 4 ==> macs[i] == ifl[i].mac)
    }

    /** Opens the card: clears the route and filter tables, and row 1 of the ARP table 32 times. */
    constructor (base: seq<string>, routes: Table, arps: Table, filter: Table, macs: seq<A.Mac>)
      requires |base| == 4 && |macs| == 4 && routes != arps && arps != filter && routes != filter
      requires |routes.staged| == 4 && |arps.staged| == 3 && |filter.staged| == 1
      requires |routes.rows| == |arps.rows| == |filter.rows| == DEPTH
      modifies routes, arps, filter
      ensures Valid() && rt == [] && at == [] && ifl == [] && !filtered && arpHigh == 0
      ensures this.routes == routes && this.arps == arps && this.filter == filter
      ensures firstArps == old(arps.rows)[1 := NO_ARP]
      ensures ports == map[base[0] := 1, base[1] := 4, base[2] := 16, base[3] := 64]
    {
      this.routes, this.arps, this.filter, this.macs := routes, arps, filter, macs;
      rt, at, ifl, arpHigh, filtered := [], [], [], 0, false;
      ports := map[base[0] := 1, base[1] := 4, base[2] := 16, base[3] := 64];
      firstArps := arps.rows[1 := NO_ARP];
      new;
      AllCleared(routes.rows, NO_ROUTE, routes.wraps);
      AllCleared(filter.rows, NO_IP, filter.wraps);
      routes.ClearRows(DEPTH, NO_ROUTE);
      ClearHwArptable(arps);
      filter.ClearRows(DEPTH, NO_IP);
    }

    /** Commits a clear row 32 times, each time at address 1. */
    static method ClearHwArptable(arps: Table)
      requires |arps.staged| == 3 && |arps.rows| == DEPTH
      modifies arps
      ensures |arps.staged| == 3 && arps.rows == old(arps.rows)[1 := NO_ARP]
    {
      var i := 0;
      while i < DEPTH
        invariant i <= DEPTH && |arps.staged| == 3 && |arps.rows| == DEPTH
        invariant arps.rows == if i == 0 then old(arps.rows) else old(arps.rows)[1 := NO_ARP]
      {
        arps.WriteRow(1, NO_ARP);
        i := i + 1;
      }
    }

    method RtableUpdate(rs: seq<Route>)
      requires Valid()
      modifies this`rt, routes
      ensures Valid() && rt == OnCard(rs, RouteDev, ports)
      ensures rt == old(rt) ==> routes.rows == old(routes.rows) && routes.staged == old(routes.staged)
    {
      var local := Select(rs, RouteDev, ports);
      if rt != local {
        UpdateRoutingTable(local);
      }
      rt := local;
    }

    /** Writes a row for each route from address 0 on. */
    method WriteRoutes(newrt: seq<Route>)
      requires |routes.staged| == 4 && |routes.rows| == DEPTH && forall r :: r in newrt ==> r.dev in ports
      modifies routes
      ensures |routes.staged| == 4
      ensures routes.rows == Written(old(routes.rows), RouteRows(newrt, ports), routes.wraps)
    {
      ghost var r1, news := routes.rows, RouteRows(newrt, ports);
      var i := 0;
      while i < |newrt|
        invariant i <= |newrt| && |routes.staged| == 4 && |routes.rows| == DEPTH
        invariant routes.rows == Written(r1, news[..i], routes.wraps)
      {
        WrittenSnoc(r1, news, i, routes.wraps);
        routes.WriteRow(i, [newrt[i].dest, newrt[i].mask, newrt[i].gw, ports[newrt[i].dev]]);
        i := i + 1;
      }
      assert news[..|newrt|] == news;
    }

    /** Clears the rows of the old routes and writes the new ones; the copy is the caller's to set. */
    method UpdateRoutingTable(newrt: seq<Route>)
      requires Valid() && forall r :: r in newrt ==> r.dev in ports
      modifies routes
      ensures |routes.staged| == 4
      ensures Shadows(routes.rows, RouteRows(newrt, ports), NO_ROUTE, DEPTH + |newrt|, Copies(NO_ROUTE, DEPTH))
    {
      ghost var r0, olds, news := routes.rows, RouteRows(rt, ports), RouteRows(newrt, ports);
      UpdateShadows(r0, olds, news, NO_ROUTE, DEPTH + |rt|, Copies(NO_ROUTE, DEPTH), routes.wraps);
      ShadowsHigher(Rewritten(r0, |olds|, NO_ROUTE, news, routes.wraps), news, NO_ROUTE, Max(DEPTH + |rt|, |newrt|), DEPTH + |newrt|);
      hide Shadows, Written, Filters;
      routes.ClearRows(|rt|, NO_ROUTE);
      WriteRoutes(newrt);
    }

    method ArptableUpdate(xs: seq<ArpLine>)
      requires Valid()
      modifies this`at, this`arpHigh, arps
      ensures Valid() && at == OnCard(xs, ArpDev, ports) && arpHigh == Max(old(arpHigh), |at|)
      ensures at == old(at) ==> arps.rows == old(arps.rows) && arps.staged == old(arps.staged)
    {
      var local := Select(xs, ArpDev, ports);
      if at != local {
        UpdateArpTable(local);
      }
      at, arpHigh := local, Max(arpHigh, |local|);
    }

    method UpdateArpTable(newat: seq<ArpLine>)
      requires Valid()
      modifies arps
      ensures |arps.staged| == 3
      ensures Shadows(arps.rows, ArpRows(newat), NO_ARP, Max(arpHigh, |newat|), firstArps)
    {
      ghost var r0 := arps.rows;
      ghost var news := ArpRows(newat);
      arps.ClearRows(|at|, NO_ARP);
      ghost var r1 := arps.rows;
      var i := 0;
      while i < |newat|
        invariant i <= |newat| && |arps.staged| == 3 && |arps.rows| == DEPTH
        invariant arps.rows == Written(r1, news[..i], arps.wraps)
      {
        WrittenSnoc(r1, news, i, arps.wraps);
        arps.WriteRow(i, [newat[i].ip, A.HighPart(newat[i].mac), A.LowPart(newat[i].mac)]);
        i := i + 1;
      }
      assert news[..|newat|] == news;
      UpdateShadows(r0, ArpRows(at), news, NO_ARP, arpHigh, firstArps, arps.wraps);
    }

    method InterfaceUpdate(xs: seq<Iface>)
      requires Valid()
      modifies this`ifl, this`macs, this`filtered, filter
      ensures Valid() && ifl == OnCard(xs, IfaceDev, ports)
      ensures filtered == (old(filtered) || ifl != old(ifl))
      ensures macs == if ifl == old(ifl) then old(macs) else PortMacs(old(macs), ifl)
      ensures ifl == old(ifl) ==> filter.rows == old(filter.rows) && filter.staged == old(filter.staged)
    {
      var local := Select(xs, IfaceDev, ports);
      if ifl != local {
        UpdateInterfaceTable(local);
        filtered := true;
      }
      ifl := local;
    }

    /** Clears as many rows as there were interfaces, writes the new addresses, and adds the OSPF address. */
    method UpdateInterfaceTable(newlist: seq<Iface>)
      requires Valid()
      modifies this`macs, filter
      ensures |filter.staged| == 1 && Filters(filter.rows, newlist, true)
      ensures macs == PortMacs(old(macs), newlist)
    {
      ghost var r0 := filter.rows;
      ghost var news := FilterRows(newlist);
      filter.ClearRows(|ifl|, NO_IP);
      ghost var r1 := filter.rows;
      var i := 0;
      while i < |newlist|
        invariant i <= |newlist| && |filter.staged| == 1 && |filter.rows| == DEPTH && |macs| == 4
        invariant filter.rows == Written(r1, news[..i], filter.wraps)
        invariant macs == PortMacs(old(macs), newlist[..i])
      {
        WrittenSnoc(r1, news, i, filter.wraps);
        filter.WriteRow(i, [newlist[i].ip]);
        SetMac(newlist[i].mac, i);
        i := i + 1;
      }
      assert newlist[..|newlist|] == newlist;
      WrittenSnoc(r1, news, i, filter.wraps);
      filter.WriteRow(i, [OSPF_IP]);
      assert news[..i + 1] == news;
      UpdateFilters(r0, ifl, newlist, filtered, filter.wraps);
    }

    /** A port beyond the fourth has no registers. */
    method SetMac(mac: A.Mac, index: nat)
      requires |macs| == 4
      modifies this`macs
      ensures macs == if index < 4 then old(macs)[index := mac] else old(macs)
    {
      if index < 4 {
        macs := macs[index := mac];
      }
    }
  }

  lemma {:induction false} AllCleared(rows: seq<Row>, clear: Row, wraps: bool)
    requires |rows| == DEPTH
    ensures Written(rows, Copies(clear, DEPTH), wraps) == Copies(clear, DEPTH)
  {
    forall i | 0 <= i < DEPTH
      ensures Written(rows, Copies(clear, DEPTH), wraps)[i] == clear
    {
      ClearedAt(rows, clear, DEPTH, wraps, i);
    }
  }

  method Select<T>(xs: seq<T>, dev: T -> string, ports: map<string, Uint32>) returns (local: seq<T>)
    ensures local == OnCard(xs, dev, ports)
  {
    local := [];
    for i := 0 to |xs|
      invariant local == OnCard(xs[..i], dev, ports)
    {
      assert xs[..i + 1][..i] == xs[..i];
      if dev(xs[i]) in ports {
        local := local + [xs[i]];
      }
    }
    assert xs[..|xs|] == xs;
  }

  // ----- the daemon

  /** One look at Linux: its routes, ARP lines and interfaces. */
  datatype Look = Look(routes: seq<Route>, arps: seq<ArpLine>, ifaces: seq<Iface>)

  lemma {:induction false} RoutesExactly(rows: seq<Row>, entries: seq<Row>, high: nat)
    requires Shadows(rows, entries, NO_ROUTE, high, Copies(NO_ROUTE, DEPTH)) && |entries| <= DEPTH
    ensures rows == Exactly(entries, NO_ROUTE)
  {
    ShadowsExactly(rows, entries, NO_ROUTE, high, Copies(NO_ROUTE, DEPTH));
  }

  /** The positions of the routes over the card's interfaces. */
  ghost predicate RouteLines(rs: seq<Route>, ports: map<string, Uint32>, at: seq<nat>) {
    Rising(at, |rs|) && forall j: nat :: j < |rs| ==> (j in at <==> rs[j].dev in ports)
  }

  ghost predicate ArpLines(xs: seq<ArpLine>, ports: map<string, Uint32>, at: seq<nat>) {
    Rising(at, |xs|) && forall j: nat :: j < |xs| ==> (j in at <==> xs[j].dev in ports)
  }

  ghost predicate IfaceLines(fs: seq<Iface>, ports: map<string, Uint32>, at: seq<nat>) {
    Rising(at, |fs|) && forall j: nat :: j < |fs| ==> (j in at <==> fs[j].name in ports)
  }

  /** Destination, mask, gateway and port of each of these routes; then clear rows. */
  ghost predicate RoutesShown(rows: seq<Row>, rs: seq<Route>, ports: map<string, Uint32>, at: seq<nat>) {
    |rows| == DEPTH && forall i :: 0 <= i < DEPTH ==>
      if i < |at| then
        at[i] < |rs| && var r := rs[at[i]];
        |rows[i]| == 4 && rows[i][0] == r.dest && rows[i][1] == r.mask && rows[i][2] == r.gw
        && r.dev in ports && rows[i][3] == ports[r.dev]
      else rows[i] == [0, 0xFFFF_FFFF, 0, 0]
  }

  /** Address and hardware address of each of these lines, octet by octet; then zero rows. */
  ghost predicate ArpsShown(rows: seq<Row>, xs: seq<ArpLine>, at: seq<nat>) {
    |rows| == DEPTH && forall i :: 0 <= i < DEPTH ==>
      if i < |at| then
        at[i] < |xs| && var x := xs[at[i]];
        |rows[i]| == 3 && rows[i][0] == x.ip && A.Spells(rows[i][1], rows[i][2], x.mac)
      else rows[i] == [0, 0, 0]
  }

  /** The addresses other than 0 that are let through: 224.0.0.5 and those of the card's interfaces. */
  ghost predicate FilterShown(rows: seq<Row>, fs: seq<Iface>, ports: map<string, Uint32>) {
    && (forall r :: r in rows ==> |r| == 1)
    && forall x: Uint32 :: x != 0 ==>
         ([x] in rows <==> x == 0xE000_0005 || exists f :: f in fs && f.name in ports && f.ip == x)
  }

  /** The first four interfaces on the card give the ports their MAC addresses. */
  ghost predicate MacsShown(macs: seq<A.Mac>, fs: seq<Iface>, at: seq<nat>) {
    |macs| == 4 && forall i :: 0 <= i < |at| && i < 4 ==> at[i] < |fs| && macs[i] == fs[at[i]].mac
  }

  ghost predicate RoutesInStep(rows: seq<Row>, rs: seq<Route>, ports: map<string, Uint32>) {
    exists at :: RouteLines(rs, ports, at) && (|at| <= DEPTH ==> RoutesShown(rows, rs, ports, at))
  }

  ghost predicate ArpsInStep(rows: seq<Row>, first: seq<Row>, high: nat, xs: seq<ArpLine>, ports: map<string, Uint32>) {
    && |first| == DEPTH
    && exists at ::
         ArpLines(xs, ports, at)
         && (|at| <= DEPTH ==> (ArpsShown(rows, xs, at) <==> forall i :: high <= i < DEPTH ==> first[i] == [0, 0, 0]))
  }

  ghost predicate IfacesInStep(rows: seq<Row>, macs: seq<A.Mac>, filtered: bool, fs: seq<Iface>, ports: map<string, Uint32>) {
    exists at :: IfaceLines(fs, ports, at) && MacsShown(macs, fs, at) &&
      (|at| < DEPTH ==>
         if filtered then FilterShown(rows, fs, ports) else at == [] && forall r :: r in rows ==> r == [0])
  }

  lemma {:induction false} RoutesAreShown(rows: seq<Row>, rs: seq<Route>, ports: map<string, Uint32>)
    requires var us := OnCard(rs, RouteDev, ports);
             Shadows(rows, RouteRows(us, ports), NO_ROUTE, DEPTH + |us|, Copies(NO_ROUTE, DEPTH))
    ensures RoutesInStep(rows, rs, ports)
  {
    var at := OnCardPicks(rs, RouteDev, ports);
    var us := OnCard(rs, RouteDev, ports);
    if |us| <= DEPTH {
      RoutesExactly(rows, RouteRows(us, ports), DEPTH + |us|);
      assert RoutesShown(rows, rs, ports, at);
    }
    assert RouteLines(rs, ports, at);
  }

  lemma {:induction false} ArpsAreShown(rows: seq<Row>, xs: seq<ArpLine>, ports: map<string, Uint32>) returns (at: seq<nat>)
    ensures var us := OnCard(xs, ArpDev, ports);
            && ArpLines(xs, ports, at) && |at| == |us|
            && (|us| <= DEPTH ==> (rows == Exactly(ArpRows(us), NO_ARP) <==> ArpsShown(rows, xs, at)))
  {
    at := OnCardPicks(xs, ArpDev, ports);
    var us := OnCard(xs, ArpDev, ports);
    hide A.HighPart, A.LowPart, A.Spells, OnCard;
    forall u | u in us
      ensures forall hi, lo :: A.Spells(hi, lo, u.mac) <==> hi == A.HighPart(u.mac) && lo == A.LowPart(u.mac)
    {
      A.Octets(u.mac);
    }
    if |us| <= DEPTH && ArpsShown(rows, xs, at) {
      var e := Exactly(ArpRows(us), NO_ARP);
      forall i | 0 <= i < DEPTH
        ensures rows[i] == e[i]
      {
        assert i < |us| ==> us[i] in us && e[i] == ArpRow(us[i]);
      }
    }
    if |us| <= DEPTH && rows == Exactly(ArpRows(us), NO_ARP) {
      forall i | 0 <= i < |us|
        ensures A.Spells(rows[i][1], rows[i][2], us[i].mac)
      {
        assert us[i] in us && rows[i] == ArpRow(us[i]);
      }
    }
  }

  lemma {:induction false} ArpsStayInStep(rows: seq<Row>, first: seq<Row>, high: nat, xs: seq<ArpLine>, ports: map<string, Uint32>)
    requires Shadows(rows, ArpRows(OnCard(xs, ArpDev, ports)), NO_ARP, high, first)
    ensures ArpsInStep(rows, first, high, xs, ports)
  {
    var at := ArpsAreShown(rows, xs, ports);
    var us := OnCard(xs, ArpDev, ports);
    hide ArpsShown, ArpLines, OnCard;
    if |us| <= DEPTH {
      ShadowsExactly(rows, ArpRows(us), NO_ARP, high, first);
    }
  }

  lemma {:induction false} FilterIsShown(rows: seq<Row>, fs: seq<Iface>, ports: map<string, Uint32>)
    requires var us := OnCard(fs, IfaceDev, ports);
             |us| < DEPTH && Filters(rows, us, true)
    ensures FilterShown(rows, fs, ports)
  {
    var us := OnCard(fs, IfaceDev, ports);
    FilterIsSet(rows, us);
    var at := OnCardPicks(fs, IfaceDev, ports);
    forall x: Uint32 | x != 0
      ensures [x] in rows <==> x in IpsOf(rows)
      ensures x in Addresses(us) <==> exists f :: f in fs && f.name in ports && f.ip == x
    {
      if x in IpsOf(rows) {
        var r :| r in rows && r != NO_IP && r[0] == x;
        assert r == [x];
      }
      if [x] in rows {
        assert [x][0] == x;
      }
      if f :| f in fs && f.name in ports && f.ip == x {
        var j: nat :| j < |fs| && fs[j] == f;
        assert j in at;
        var i :| 0 <= i < |at| && at[i] == j;
        assert us[i] in us;
      }
    }
  }

  lemma {:induction false} IfacesStayInStep(rows: seq<Row>, macs: seq<A.Mac>, filtered: bool, fs: seq<Iface>, ports: map<string, Uint32>)
    requires var us := OnCard(fs, IfaceDev, ports);
             && Filters(rows, us, filtered) && |macs| == 4
             && forall i :: 0 <= i < |us| && i < 4 ==> macs[i] == us[i].mac
    ensures IfacesInStep(rows, macs, filtered, fs, ports)
  {
    var at := OnCardPicks(fs, IfaceDev, ports);
    if |at| < DEPTH && filtered {
      FilterIsShown(rows, fs, ports);
    }
    assert IfaceLines(fs, ports, at) && MacsShown(macs, fs, at);
    hide OnCard, FilterShown;
  }

  class Daemon {
    const mon: Monitor
    var rtcur: seq<Route>
    var arpcur: seq<ArpLine>
    var ifcur: seq<Iface>

    ghost predicate Valid()
      reads this, mon, mon.routes, mon.arps, mon.filter
    {
      && mon.Valid()
      && mon.rt == OnCard(rtcur, RouteDev, mon.ports)
      && mon.at == OnCard(arpcur, ArpDev, mon.ports)
      && mon.ifl == OnCard(ifcur, IfaceDev, mon.ports)
    }

    constructor (mon: Monitor)
      requires mon.Valid() && mon.rt == [] && mon.at == [] && mon.ifl == []
      ensures Valid() && this.mon == mon
    {
      this.mon, rtcur, arpcur, ifcur := mon, [], [], [];
    }

    /**
     What the card's tables hold, in terms of the lines the look has for the card's
     interfaces: the route table exactly the routes; the ARP table exactly the ARP lines
     just when no row it never used held anything at the start; the filter, as a set, the
     interfaces' addresses and the OSPF address; and the ports their MAC addresses.
     */
    ghost predicate InStep(l: Look)
      reads mon, mon.routes, mon.arps, mon.filter
    {
      && RoutesInStep(mon.routes.rows, l.routes, mon.ports)
      && ArpsInStep(mon.arps.rows, mon.firstArps, mon.arpHigh, l.arps, mon.ports)
      && IfacesInStep(mon.filter.rows, mon.macs, mon.filtered, l.ifaces, mon.ports)
    }

    method CheckRoutes(rtcheck: seq<Route>)
      requires Valid()
      modifies this`rtcur, mon`rt, mon.routes
      ensures Valid() && rtcur == rtcheck
    {
      hide Shadows, Filters, OnCard, RouteRows;
      if rtcheck != rtcur {
        mon.RtableUpdate(rtcheck);
        rtcur := rtcheck;
      }
    }

    method CheckArps(arpcheck: seq<ArpLine>)
      requires Valid()
      modifies this`arpcur, mon`at, mon`arpHigh, mon.arps
      ensures Valid() && arpcur == arpcheck && mon.arpHigh == Max(old(mon.arpHigh), |mon.at|)
    {
      hide Shadows, Filters, OnCard, RouteRows;
      if arpcheck != arpcur {
        arpcur := arpcheck;
        mon.ArptableUpdate(arpcheck);
      }
    }

    method CheckIfaces(ifcheck: seq<Iface>)
      requires Valid()
      modifies this`ifcur, mon`ifl, mon`macs, mon`filtered, mon.filter
      ensures Valid() && ifcur == ifcheck && mon.filtered == (old(mon.filtered) || mon.ifl != old(mon.ifl))
    {
      hide Shadows, Filters, OnCard, RouteRows;
      if ifcheck != ifcur {
        mon.InterfaceUpdate(ifcheck);
        ifcur := ifcheck;
      }
    }

    method Poll(l: Look)
      requires Valid()
      modifies this, mon, mon.routes, mon.arps, mon.filter
      ensures Valid() && InStep(l) && rtcur == l.routes && arpcur == l.arps && ifcur == l.ifaces
      ensures mon.arpHigh == Max(old(mon.arpHigh), |mon.at|)
      ensures mon.filtered == (old(mon.filtered) || mon.ifl != old(mon.ifl))
    {
      hide *;
      CheckRoutes(l.routes);
      CheckArps(l.arps);
      CheckIfaces(l.ifaces);
      TablesInStep(l);
    }

    lemma {:induction false} TablesInStep(l: Look)
      requires Valid() && rtcur == l.routes && arpcur == l.arps && ifcur == l.ifaces
      ensures InStep(l)
    {
      hide Shadows, Filters, OnCard, RoutesInStep, ArpsInStep, IfacesInStep;
      RoutesAreShown(mon.routes.rows, l.routes, mon.ports);
      ArpsStayInStep(mon.arps.rows, mon.firstArps, mon.arpHigh, l.arps, mon.ports);
      IfacesStayInStep(mon.filter.rows, mon.macs, mon.filtered, l.ifaces, mon.ports);
    }

    /** After any number of polls the tables show what the last look saw. */
    method Run(looks: seq<Look>)
      requires Valid() && looks != []
      modifies this, mon, mon.routes, mon.arps, mon.filter
      ensures Valid() && InStep(looks[|looks| - 1])
      ensures mon.arpHigh >= old(mon.arpHigh)
    {
      for i := 0 to |looks|
        invariant Valid() && (i > 0 ==> InStep(looks[i - 1])) && mon.arpHigh >= old(mon.arpHigh)
      {
        Poll(looks[i]);
      }
    }
  }
}
