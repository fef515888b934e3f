/**
 The ARP cache and its bounded copy in the router's lookup hardware.

 The hardware is written through staging registers and a commit register, one row at a
 time; `Mirror` says what its rows must hold for a given cache: the static entries in
 cache order, then the dynamic ones, cut at the table depth and padded with zero rows.
 */
module ArpCache {
  import opened Sequences
  import opened Words

  datatype Mac = Mac(b0: Byte, b1: Byte, b2: Byte, b3: Byte, b4: Byte, b5: Byte)
  datatype ArpEntry = ArpEntry(ip: Uint32, mac: Mac, ttl: int, isStatic: bool)
  datatype Row = Row(macHi: Uint32, macLo: Uint32, ip: Uint32)

  const ZERO_ROW := Row(0, 0, 0)

  /** The two registers that take a hardware address. */
  function HighPart(m: Mac): Uint32 {
    m.b0 * 0x100 + m.b1
  }

  function LowPart(m: Mac): Uint32 {
    m.b2 * 0x100_0000 + m.b3 * 0x1_0000 + m.b4 * 0x100 + m.b5
  }

  function Encode(e: ArpEntry): Row {
    Row(HighPart(e.mac), LowPart(e.mac), e.ip)
  }

  /** The row tells address and hardware address apart from those of any other entry. */
  lemma {:induction false} EncodeInjective(e: ArpEntry, f: ArpEntry)
    ensures Encode(e) == Encode(f) <==> e.ip == f.ip && e.mac == f.mac
  {
    if Encode(e) == Encode(f) {
      var m, n := e.mac, f.mac;
      assert m.b0 == n.b0 && m.b1 == n.b1;
      assert m.b2 == n.b2;
      assert m.b3 == n.b3;
      assert m.b4 == n.b4 && m.b5 == n.b5;
    }
  }

  /** The octets of the address are, in order, the two of `hi` and the four of `lo`, most significant first. */
  predicate Spells(hi: Uint32, lo: Uint32, m: Mac) {
    && hi < 0x1_0000 && m.b0 == hi / 0x100 && m.b1 == hi % 0x100
    && m.b2 == lo / 0x100_0000 && m.b3 == lo / 0x1_0000 % 0x100 && m.b4 == lo / 0x100 % 0x100 && m.b5 == lo % 0x100
  }

  /** The two registers spell the address, and nothing else does. */
  lemma {:induction false} Octets(m: Mac)
    ensures forall hi, lo :: Spells(hi, lo, m) <==> hi == HighPart(m) && lo == LowPart(m)
  {
    var y := m.b3 + 0x100 * m.b2;
    var x := m.b4 + 0x100 * y;
    assert LowPart(m) == m.b5 + 0x100 * x;
    Digit(m.b5, x);
    Digit(m.b4, y);
    Digit(m.b3, m.b2);
    Digits(LowPart(m));
    Digit(m.b1, m.b0);
    forall hi, lo | Spells(hi, lo, m)
      ensures hi == HighPart(m) && lo == LowPart(m)
    {
      Digits(lo);
    }
  }

  // ----- the cache as a value

  /** Position of the first entry for ip, or |es|. */
  function Find(es: seq<ArpEntry>, ip: Uint32): (k: nat)
    ensures k <= |es|
    ensures k < |es| ==> es[k].ip == ip
    ensures forall j :: 0 <= j < k ==> es[j].ip != ip
  {
    if es == [] || es[0].ip == ip then 0 else 1 + Find(es[1..], ip)
  }

  /** Entry k is for ip, and none before it is. */
  predicate FirstFor(es: seq<ArpEntry>, ip: Uint32, k: nat) {
    k < |es| && es[k].ip == ip && forall j :: 0 <= j < k ==> es[j].ip != ip
  }

  predicate Unique(es: seq<ArpEntry>) {
    forall i, j :: 0 <= i < j < |es| ==> es[i].ip != es[j].ip
  }

  function Updated(es: seq<ArpEntry>, e: ArpEntry): (u: seq<ArpEntry>)
    ensures Unique(es) ==> Unique(u)
  {
    var k := Find(es, e.ip);
    if k < |es| then es[k := e] else es + [e]
  }

  lemma {:induction false} KeepUnique(es: seq<ArpEntry>, marks: seq<bool>)
    requires |es| == |marks| && Unique(es)
    ensures Unique(Keep(es, marks))
  {
    if es != [] {
      KeepUnique(es[1..], marks[1..]);
      forall x | x in Keep(es[1..], marks[1..])
        ensures x.ip != es[0].ip
      {
        var i :| 0 <= i < |es[1..]| && es[1..][i] == x;
        assert es[i + 1] == x;
      }
    }
  }

  /** An entry is timed out by a clock reading when it is dynamic and older than the limit. */
  predicate TimedOut(e: ArpEntry, now: int, limit: int) {
    !e.isStatic && now - e.ttl > limit
  }

  function Fresh(es: seq<ArpEntry>, readings: seq<int>, limit: int): (marks: seq<bool>)
    requires |es| == |readings|
    ensures |marks| == |es|
  {
    seq(|es|, i requires 0 <= i < |es| => !TimedOut(es[i], readings[i], limit))
  }

  function Others(es: seq<ArpEntry>, ip: Uint32): (marks: seq<bool>)
    ensures |marks| == |es|
  {
    seq(|es|, i requires 0 <= i < |es| => es[i].ip != ip)
  }

  lemma {:induction false} OthersSnoc(es: seq<ArpEntry>, ip: Uint32, i: nat)
    requires i < |es|
    ensures Others(es[..i + 1], ip) == Others(es[..i], ip) + [es[i].ip != ip]
  {
  }

  /** Entries other than those for ip are kept among the first n of es; the cursor stands behind them. */
  ghost predicate Deleting(es: seq<ArpEntry>, n: nat, ip: Uint32, now: seq<ArpEntry>, cur: nat) {
    n <= |es| && now == Swept(es, Others(es[..n], ip)) && cur == Kept(es, Others(es[..n], ip))
  }

  lemma {:induction false} DeletingStarts(es: seq<ArpEntry>, ip: Uint32)
    ensures Deleting(es, 0, ip, es, 0)
  {
    assert Others(es[..0], ip) == [];
    SweepStart(es);
  }

  lemma {:induction false} DeletingNext(es: seq<ArpEntry>, n: nat, ip: Uint32, now: seq<ArpEntry>, cur: nat)
    requires Deleting(es, n, ip, now, cur) && cur < |now|
    ensures n < |es|
    ensures if now[cur].ip == ip then Deleting(es, n + 1, ip, Without(now, cur), cur)
            else Deleting(es, n + 1, ip, now, cur + 1)
  {
    hide Others, Swept, Kept, Without;
    var marks := Others(es[..n], ip);
    SweepStep(es, marks, now[cur].ip != ip);
    OthersSnoc(es, ip, n);
  }

  lemma {:induction false} DeletingEnds(es: seq<ArpEntry>, n: nat, ip: Uint32, now: seq<ArpEntry>, cur: nat)
    requires Deleting(es, n, ip, now, cur) && cur >= |now|
    ensures now == Keep(es, Others(es, ip))
  {
    hide Others, Swept, Kept, Keep;
    SweepEnd(es, Others(es[..n], ip));
    assert es[..n] == es;
  }

  lemma {:induction false} OthersFirst(es: seq<ArpEntry>, ip: Uint32)
    requires es != []
    ensures Others(es, ip)[0] == (es[0].ip != ip) && Others(es, ip)[1..] == Others(es[1..], ip)
  {
  }

  /** In a cache with unique addresses deletion removes the entry for ip and nothing else. */
  lemma {:induction false} DeletesOne(es: seq<ArpEntry>, ip: Uint32)
    requires Unique(es)
    ensures var k := Find(es, ip);
            Keep(es, Others(es, ip)) == if k < |es| then Without(es, k) else es
  {
    if es == [] {
      return;
    }
    hide *;
    var rest := es[1..];
    FindShift(es, ip);
    OthersFirst(es, ip);
    KeepFirst(es, Others(es, ip));
    UniqueRest(es);
    DeletesOne(rest, ip);
    if es[0].ip == ip {
      NotThere(rest, ip);
      WithoutFirst(es, 0);
    } else if Find(rest, ip) < |rest| {
      WithoutFirst(es, 1 + Find(rest, ip));
    } else {
      assert es == [es[0]] + rest;
    }
  }

  lemma {:induction false} UniqueRest(es: seq<ArpEntry>)
    requires Unique(es) && es != []
    ensures Unique(es[1..]) && forall j :: 0 <= j < |es| - 1 ==> es[1..][j].ip != es[0].ip
  {
    assert forall j :: 0 <= j < |es| - 1 ==> es[1..][j] == es[j + 1];
  }

  lemma {:induction false} FindShift(es: seq<ArpEntry>, ip: Uint32)
    requires es != []
    ensures Find(es, ip) == if es[0].ip == ip then 0 else 1 + Find(es[1..], ip)
  {
  }

  lemma {:induction false} NotThere(es: seq<ArpEntry>, ip: Uint32)
    requires forall j :: 0 <= j < |es| ==> es[j].ip != ip
    ensures Find(es, ip) == |es|
  {
  }

  // ----- what the hardware rows must hold

  function Select(es: seq<ArpEntry>, isStatic: bool): (u: seq<ArpEntry>)
  {
    if es == [] then []
    else (if es[0].isStatic == isStatic then [es[0]] else []) + Select(es[1..], isStatic)
  }

  lemma {:induction false} SelectSnoc(es: seq<ArpEntry>, isStatic: bool, i: nat)
    requires i < |es|
    ensures Select(es[..i + 1], isStatic) ==
            Select(es[..i], isStatic) + (if es[i].isStatic == isStatic then [es[i]] else [])
  {
    if i == 0 {
      assert es[..1][1..] == [];
    } else {
      assert es[..i + 1][1..] == es[1..][..i] && es[..i][1..] == es[1..][..i - 1];
      SelectSnoc(es[1..], isStatic, i - 1);
    }
  }

  /** Static entries first, then dynamic ones. */
  function Ordered(es: seq<ArpEntry>): seq<ArpEntry> {
    Select(es, true) + Select(es, false)
  }

  /** The row a table of any depth holds at position i. */
  function RowAt(es: seq<ArpEntry>, i: nat): Row {
    if i < |Ordered(es)| then Encode(Ordered(es)[i]) else ZERO_ROW
  }

  function Mirror(es: seq<ArpEntry>, depth: nat): (rows: seq<Row>)
    ensures |rows| == depth
    ensures forall i :: 0 <= i < depth ==> rows[i] == RowAt(es, i)
  {
    seq(depth, i requires 0 <= i < depth => RowAt(es, i))
  }

  /** Where the first entry stands when the statics have been put in front. */
  lemma {:induction false} OrderedFirst(es: seq<ArpEntry>) returns (s: seq<ArpEntry>, d: seq<ArpEntry>)
    requires es != []
    ensures Ordered(es) == s + [es[0]] + d && Ordered(es[1..]) == s + d
  {
    s, d := Select(es[1..], true), Select(es[1..], false);
    if es[0].isStatic {
      s, d := [], s + d;
    }
  }

  lemma {:induction false} OrderedMultiset(es: seq<ArpEntry>)
    ensures multiset(Ordered(es)) == multiset(es)
  {
    if es != [] {
      OrderedMultiset(es[1..]);
      var s, d := OrderedFirst(es);
      hide *;
      MoveFirst(s, es[0], d);
      FirstAndRest(es);
    }
  }

  /** Row r tells the address of entry e and the octets of its hardware address. */
  predicate Tells(row: Row, e: ArpEntry) {
    row.ip == e.ip && Spells(row.macHi, row.macLo, e.mac)
  }

  lemma {:induction false} EncodeTells(e: ArpEntry)
    ensures Tells(Encode(e), e)
  {
    Octets(e.mac);
  }

  /**
   The rows tell the entries at these positions of the cache, each once as far as the
   table goes: the static ones first, each kind in cache order; the other rows are zero.
   */
  ghost predicate Arranged(es: seq<ArpEntry>, depth: nat, rows: seq<Row>, at: seq<nat>) {
    && |rows| == depth && |at| == |es| && (forall i :: 0 <= i < |at| ==> at[i] < |es|)
    && (forall i, j :: 0 <= i < j < |at| ==>
          if es[at[i]].isStatic == es[at[j]].isStatic then at[i] < at[j] else es[at[i]].isStatic)
    && (forall i :: 0 <= i < depth ==> if i < |es| then Tells(rows[i], es[at[i]]) else rows[i] == Row(0, 0, 0))
  }

  /** The entries of one kind, by position. */
  lemma {:induction false} SelectPicks(es: seq<ArpEntry>, isStatic: bool) returns (at: seq<nat>)
    ensures Picks(Select(es, isStatic), es, at)
    ensures forall i :: 0 <= i < |at| ==> es[at[i]].isStatic == isStatic
  {
    at := [];
    if es != [] {
      var n := |es| - 1;
      at := SelectPicks(es[..n], isStatic);
      assert es[..n + 1] == es == es[..n] + [es[n]];
      SelectSnoc(es, isStatic, n);
      PicksSnoc(Select(es[..n], isStatic), es[..n], at, es[n]);
      if es[n].isStatic == isStatic {
        at := at + [n];
      }
    }
  }

  lemma {:induction false} MirrorArranged(es: seq<ArpEntry>, depth: nat) returns (at: seq<nat>)
    ensures Arranged(es, depth, Mirror(es, depth), at)
  {
    var s := SelectPicks(es, true);
    var d := SelectPicks(es, false);
    at := s + d;
    OrderedMultiset(es);
    var o := Ordered(es);
    assert |multiset(o)| == |multiset(es)|;
    assert forall i :: 0 <= i < |o| ==> o[i] == es[at[i]];
    forall i | 0 <= i < depth
      ensures if i < |es| then Tells(Mirror(es, depth)[i], es[at[i]]) else Mirror(es, depth)[i] == Row(0, 0, 0)
    {
      if i < |es| {
        EncodeTells(o[i]);
      }
    }
    hide Tells, Mirror, Select, Ordered;
  }

  /**
   While the cache fits, the hardware answers a lookup for ip exactly as the cache does,
   octet by octet.
   */
  lemma {:induction false} HardwareAnswers(es: seq<ArpEntry>, depth: nat, ip: Uint32)
    requires Unique(es) && |es| <= depth && ip != 0
    ensures (exists r :: 0 <= r < depth && Mirror(es, depth)[r].ip == ip) <==> Find(es, ip) < |es|
    ensures forall r :: 0 <= r < depth && Mirror(es, depth)[r].ip == ip ==>
              Find(es, ip) < |es| && Mirror(es, depth)[r] == Encode(es[Find(es, ip)])
    ensures forall r :: 0 <= r < depth && Mirror(es, depth)[r].ip == ip ==>
              Find(es, ip) < |es| && var row, m := Mirror(es, depth)[r], es[Find(es, ip)].mac;
              && row.macHi < 0x1_0000 && m.b0 == row.macHi / 0x100 && m.b1 == row.macHi % 0x100
              && m.b2 == row.macLo / 0x100_0000 && m.b3 == row.macLo / 0x1_0000 % 0x100
              && m.b4 == row.macLo / 0x100 % 0x100 && m.b5 == row.macLo % 0x100
  {
    OrderedMultiset(es);
    var o := Ordered(es);
    assert |multiset(o)| == |multiset(es)|;
    forall r | 0 <= r < depth && Mirror(es, depth)[r].ip == ip
      ensures Find(es, ip) < |es| && Mirror(es, depth)[r] == Encode(es[Find(es, ip)])
    {
      assert o[r] in multiset(o);
      var k :| 0 <= k < |es| && es[k] == o[r];
      FindOnly(es, k);
    }
    if Find(es, ip) < |es| {
      assert es[Find(es, ip)] in multiset(o);
      var r :| 0 <= r < |o| && o[r] == es[Find(es, ip)];
      assert Mirror(es, depth)[r].ip == ip;
      EncodeTells(es[Find(es, ip)]);
    }
  }

  lemma {:induction false} FindOnly(es: seq<ArpEntry>, k: nat)
    requires Unique(es) && k < |es|
    ensures Find(es, es[k].ip) == k
  {
  }

  // ----- the router's cache

  datatype Register = MacHi | MacLo | NextHopIp | WriteAddr

  class Cache {
    const isNetfpga: bool
    const depth: Uint32
    var entries: seq<ArpEntry>
    var arpTtl: int
    var clock: int
    var staged: Row
    var rows: seq<Row>

    constructor (isNetfpga: bool, depth: Uint32, rows: seq<Row>)
      requires |rows| == depth
      ensures Sized() && entries == [] && this.isNetfpga == isNetfpga && this.depth == depth && this.rows == rows
      ensures arpTtl == 300 && clock == 0
    {
      this.isNetfpga, this.depth, this.rows := isNetfpga, depth, rows;
      entries, arpTtl, clock, staged := [], 300, 0, ZERO_ROW;
    }

    predicate Sized()
      reads this
    {
      |rows| == depth
    }

    /** The hardware copy is up to date. */
    predicate Synced()
      reads this
    {
      Sized() && (isNetfpga ==> rows == Mirror(entries, depth))
    }

    /** Reads the clock, which may have moved on and never goes back. */
    method Time() returns (now: int)
      modifies this`clock
      ensures now == clock >= old(clock)
    {
      var reading: int := *;
      if reading > clock {
        clock := reading;
      }
      now := clock;
    }

    method WriteReg(reg: Register, val: Uint32)
      requires Sized()
      modifies this`staged, this`rows
      ensures Sized()
      ensures staged == match reg
        case MacHi => old(staged).(macHi := val)
        case MacLo => old(staged).(macLo := val)
        case NextHopIp => old(staged).(ip := val)
        case WriteAddr => old(staged)
      ensures rows == if reg == WriteAddr && val < depth then old(rows)[val := old(staged)] else old(rows)
    {
      match reg {
        case MacHi => staged := staged.(macHi := val);
        case MacLo => staged := staged.(macLo := val);
        case NextHopIp => staged := staged.(ip := val);
        case WriteAddr =>
          if val < depth {
            rows := rows[val := staged];
          }
      }
    }

    /** Writes one row through the staging registers. */
    method WriteEntryToHw(row: Row, i: nat)
      requires Sized() && i < depth
      modifies this`staged, this`rows
      ensures Sized() && rows == old(rows)[i := row]
    {
      WriteReg(MacHi, row.macHi);
      WriteReg(MacLo, row.macLo);
      WriteReg(NextHopIp, row.ip);
      WriteReg(WriteAddr, i);
    }

    /** Brings the hardware copy up to date. */
    method WriteCacheToHw()
      requires Sized()
      modifies this`staged, this`rows
      ensures Sized() && rows == Mirror(entries, depth)
      ensures exists at :: Arranged(entries, depth, rows, at)
    {
      var i, cur := 0, 0;
      ghost var statics := Select(entries, true);
      while cur < |entries| && i < depth
        invariant Sized() && 0 <= cur <= |entries| && i <= depth && i == |Select(entries[..cur], true)|
        invariant forall k :: 0 <= k < i ==> rows[k] == RowAt(entries, k)
        decreases |entries| - cur
      {
        SelectSnoc(entries, true, cur);
        PrefixOrdered(entries, true, cur + 1);
        if entries[cur].isStatic {
          WriteEntryToHw(Encode(entries[cur]), i);
          i := i + 1;
        }
        cur := cur + 1;
      }
      assert entries[..|entries|] == entries;
      if i < depth {
        assert i == |statics|;
      }
      cur := 0;
      while i < depth
        invariant Sized() && 0 <= cur <= |entries| && i <= depth
        invariant i < depth ==>
          i == |statics| + |Select(entries[..cur], false)| || (cur == |entries| && i >= |Ordered(entries)|)
        invariant forall k :: 0 <= k < i ==> rows[k] == RowAt(entries, k)
        decreases depth - i, |entries| - cur
      {
        if cur < |entries| {
          SelectSnoc(entries, false, cur);
          PrefixOrdered(entries, false, cur + 1);
          if !entries[cur].isStatic {
            WriteEntryToHw(Encode(entries[cur]), i);
            i := i + 1;
          }
          cur := cur + 1;
        } else {
          WriteEntryToHw(ZERO_ROW, i);
          i := i + 1;
        }
      }
      assert rows == Mirror(entries, depth);
      ghost var at := MirrorArranged(entries, depth);
    }

    method TriggerModified()
      requires Sized()
      modifies this`staged, this`rows
      ensures Synced()
      ensures !isNetfpga ==> rows == old(rows)
    {
      if isNetfpga {
        WriteCacheToHw();
      }
    }

    /** Position of the entry for ip, or the number of entries. */
    method InArpCache(ip: Uint32) returns (k: nat)
      ensures k == Find(entries, ip)
    {
      k := 0;
      while k < |entries| && entries[k].ip != ip
        invariant k <= |entries| && forall j :: 0 <= j < k ==> entries[j].ip != ip
      {
        k := k + 1;
      }
    }

    /** A reply or a command sets the entry for ip; static entries carry no time. */
    method UpdateArpCache(ip: Uint32, mac: Mac, isStatic: bool)
      requires Sized()
      modifies this`entries, this`clock, this`staged, this`rows
      ensures Synced() && clock >= old(clock) && (isStatic ==> clock == old(clock))
      ensures entries == Updated(old(entries), ArpEntry(ip, mac, if isStatic then 0 else clock, isStatic))
      ensures forall k: nat :: FirstFor(old(entries), ip, k) ==>
                entries == old(entries)[k := ArpEntry(ip, mac, if isStatic then 0 else clock, isStatic)]
      ensures (forall k :: 0 <= k < |old(entries)| ==> old(entries)[k].ip != ip) ==>
                entries == old(entries) + [ArpEntry(ip, mac, if isStatic then 0 else clock, isStatic)]
    {
      var k := InArpCache(ip);
      var ttl := 0;
      if !isStatic {
        ttl := Time();
      }
      var e := ArpEntry(ip, mac, ttl, isStatic);
      if k < |entries| {
        entries := entries[k := e];
      } else {
        entries := entries + [e];
      }
      TriggerModified();
    }

    /** Deletes every entry for ip; the trigger is the caller's. */
    method DelArpCache(ip: Uint32) returns (deleted: nat)
      modifies this`entries
      ensures entries == Keep(old(entries), Others(old(entries), ip))
      ensures deleted == |old(entries)| - |entries|
    {
      ghost var es := entries;
      ghost var n: nat := 0;
      var cur: nat := 0;
      deleted := 0;
      DeletingStarts(es, ip);
      hide *;
      while cur < |entries|
        invariant Deleting(es, n, ip, entries, cur) && deleted == |es| - |entries|
        decreases |es| - n
      {
        DeletingNext(es, n, ip, entries, cur);
        if entries[cur].ip == ip {
          WithoutMeans(entries, cur);
          entries := entries[..cur] + entries[cur + 1..];
          deleted := deleted + 1;
        } else {
          cur := cur + 1;
        }
        n := n + 1;
      }
      DeletingEnds(es, n, ip, entries, cur);
    }

    /** The CLI command: delete, and rewrite the hardware when something was deleted. */
    method CliDelete(ip: Uint32) returns (deleted: nat)
      requires Synced() && Unique(entries)
      modifies this`entries, this`staged, this`rows
      ensures Synced() && Unique(entries)
      ensures var k := Find(old(entries), ip);
              if k < |old(entries)| then deleted == 1 && entries == Without(old(entries), k)
              else deleted == 0 && entries == old(entries)
    {
      DeletesOne(entries, ip);
      KeepUnique(entries, Others(entries, ip));
      deleted := DelArpCache(ip);
      if deleted > 0 {
        TriggerModified();
      }
    }

    /** The clock reading taken for one entry, and whether the entry stays. */
    method CheckEntry(e: ArpEntry) returns (keep: bool, ghost reading: int)
      modifies this`clock
      ensures clock >= old(clock) && old(clock) <= reading <= clock
      ensures keep == !TimedOut(e, reading, arpTtl)
    {
      keep, reading := true, clock;
      if !e.isStatic {
        var now := Time();
        reading := now;
        keep := now - e.ttl <= arpTtl;
      }
    }

    /** The loop of the method below. */
    method SweepTimedOut() returns (expired: bool, ghost readings: seq<int>)
      modifies this`entries, this`clock
      ensures clock >= old(clock) && |readings| == |old(entries)|
      ensures forall i :: 0 <= i < |readings| ==> old(clock) <= readings[i] <= clock
      ensures entries == Keep(old(entries), Fresh(old(entries), readings, arpTtl))
      ensures !expired ==> entries == old(entries)
    {
      ghost var es, marks: seq<bool> := entries, [];
      var cur := 0;
      expired, readings := false, [];
      SweepStart(es);
      hide Kept, Swept, TimedOut, Keep;
      while cur < |entries|
        invariant |readings| == |marks| <= |es| && clock >= old(clock)
        invariant forall j :: 0 <= j < |marks| ==>
          old(clock) <= readings[j] <= clock && marks[j] == !TimedOut(es[j], readings[j], arpTtl)
        invariant cur == Kept(es, marks) && entries == Swept(es, marks)
        invariant !expired ==> entries == es
        decreases |es| - |marks|
      {
        var keep;
        ghost var reading;
        keep, reading := CheckEntry(entries[cur]);
        SweepStep(es, marks, keep);
        if keep {
          cur := cur + 1;
        } else {
          entries := entries[..cur] + entries[cur + 1..];
          expired := true;
        }
        marks, readings := marks + [keep], readings + [reading];
      }
      SweepEnd(es, marks);
      assert marks == Fresh(es, readings, arpTtl);
    }

    /** Drops every dynamic entry that a clock reading taken on its turn finds too old. */
    method ExpireArpCache() returns (ghost readings: seq<int>)
      requires Synced()
      modifies this`entries, this`clock, this`staged, this`rows
      ensures Synced() && clock >= old(clock) && |readings| == |old(entries)|
      ensures forall i :: 0 <= i < |readings| ==> old(clock) <= readings[i] <= clock
      ensures entries == Keep(old(entries), Fresh(old(entries), readings, arpTtl))
      ensures exists at :: Picks(entries, old(entries), at) && forall j: nat :: j < |readings| ==>
                (j in at <==> old(entries)[j].isStatic || readings[j] - old(entries)[j].ttl <= arpTtl)
    {
      ghost var es := entries;
      var expired;
      expired, readings := SweepTimedOut();
      ghost var at := KeepPicks(es, Fresh(es, readings, arpTtl));
      if expired {
        TriggerModified();
      }
    }

    /** Empties the cache, and the hardware with it. */
    method Nuke()
      requires Sized()
      modifies this`entries, this`staged, this`rows
      ensures entries == [] && Synced()
    {
      while entries != []
        invariant Sized()
        decreases |entries|
      {
        entries := entries[1..];
      }
      TriggerModified();
    }

    /** The CLI command that clears one hardware row behind the cache's back. */
    method NukeRow(row: nat)
      requires Synced()
      modifies this`staged, this`rows
      ensures Sized() && rows == if isNetfpga && row < depth then old(rows)[row := ZERO_ROW] else old(rows)
    {
      if isNetfpga && row < depth {
        WriteEntryToHw(ZERO_ROW, row);
      }
    }
  }

  /** Clearing one row leaves the hardware in step exactly when that row held nothing anyway. */
  lemma {:induction false} NukedRowInSync(es: seq<ArpEntry>, depth: nat, row: nat)
    requires row < depth
    ensures Mirror(es, depth)[row := ZERO_ROW] == Mirror(es, depth) <==> RowAt(es, row) == ZERO_ROW
  {
    if RowAt(es, row) == ZERO_ROW {
      assert Mirror(es, depth)[row] == ZERO_ROW;
    } else {
      assert Mirror(es, depth)[row := ZERO_ROW][row] != Mirror(es, depth)[row];
    }
  }

  /** Entries selected from a prefix of the cache are a prefix of those selected from all of it. */
  lemma {:induction false} PrefixOrdered(es: seq<ArpEntry>, isStatic: bool, i: nat)
    requires i <= |es|
    ensures Select(es[..i], isStatic) <= Select(es, isStatic)
    decreases |es| - i
  {
    if i < |es| {
      PrefixOrdered(es, isStatic, i + 1);
      SelectSnoc(es, isStatic, i);
    } else {
      assert es[..i] == es;
    }
  }
}
