/**
 When packets that wait are sent, and what the size of the pool is for: statements about
 whole runs of the step system.
 */
module TransmitProgress {
  import opened TransmitRing
  import opened TransmitSteps
  import opened TransmitCard

  // ----- a single attempt

  /**
   Undisturbed, the send function starts a transfer exactly when none is under way, a packet
   waits, and the oldest one's port can take it; it is then that packet it transfers.
   */
  lemma {:induction false} AttemptServes(s: State)
    requires Inv(s) && s.lock.Open? && s.irq.Quiet? && s.senders == map[]
    ensures Shape(s.ring)
    ensures Started(s) != s <==>
            s.dma.Idle? && s.done < |s.accepted| && s.accepted[s.done].iface in s.canWrite
    ensures Started(s) != s ==> Started(s).dma == Busy(s.accepted[s.done])
  {
    assert |s.senders| == 0;
    if s.done < |s.accepted| {
      HeadIsOldest(s);
    }
    hide Reading, InOrder;
  }

  // ----- attempts that disturb each other

  /** The oldest packet is fully queued, and its port can take it. */
  predicate Waits(s: State) {
    s.done < |s.accepted| && s.ring.free < |s.ring.slots| && s.accepted[s.done].iface in s.canWrite
  }

  /** No transfer is under way, and no caller can still start one. */
  predicate NoneActive(s: State) {
    Window(s) == 0 && forall t :: t in s.senders ==> s.senders[t].Lost?
  }

  /** A caller that can still start a transfer. */
  predicate Active(s: State, t: nat) {
    t in s.senders && !s.senders[t].Lost?
  }

  /** Some caller of the run finds the counter at 0. */
  predicate Wins(s: State, steps: seq<Action>)
    decreases |steps|
  {
    steps != [] && Can(s, steps[0]) &&
    ((steps[0].Begin? && s.counter == 0) || Wins(Do(s, steps[0]), steps[1..]))
  }

  /** Port i stays writable: what the status interrupts of the run report has it. */
  predicate KeepsPort(steps: seq<Action>, i: Port) {
    forall a :: a in steps && a.PortStatus? ==> i in a.ports
  }

  /** While nobody wins, nothing is sent. */
  lemma {:induction false} IdleStep(s: State, a: Action)
    requires Inv(s) && NoneActive(s) && Waits(s) && Can(s, a)
    requires a.PortStatus? ==> s.accepted[s.done].iface in a.ports
    requires a.Begin? ==> s.counter != 0
    ensures var r := Do(s, a);
            && NoneActive(r) && Waits(r) && r.sent == s.sent
            && r.accepted[r.done] == s.accepted[s.done]
  {
  }

  /** A caller that finds the counter at 0 is active. */
  lemma {:induction false} WinStep(s: State, t: nat)
    requires Waits(s) && Can(s, Begin(t)) && s.counter == 0
    ensures var r := Do(s, Begin(t));
            Active(r, t) && Waits(r) && r.sent == s.sent && r.accepted == s.accepted && r.done == s.done
  {
  }

  /** An active caller stays active while its packet waits, until it starts the transfer. */
  lemma {:induction false} ActiveStep(s: State, a: Action, t: nat)
    requires Inv(s) && Active(s, t) && Waits(s) && Can(s, a)
    requires a.PortStatus? ==> s.accepted[s.done].iface in a.ports
    ensures var r := Do(s, a);
            || s.sent < r.sent
            || (Active(r, t) && Waits(r) && r.sent == s.sent && r.accepted[r.done] == s.accepted[s.done])
  {
    assert Window(s) == 0 && Reads(s.accepted, s.done, s.senders[t]);
    HeadIsOldest(s);
  }

  lemma {:induction false} SentGrows(s: State, steps: seq<Action>, r: State)
    requires Run(s, steps, r)
    ensures s.sent <= r.sent
    decreases |steps|
  {
    if steps != [] {
      SentGrows(Do(s, steps[0]), steps[1..], r);
    }
  }

  /** An active caller that is no longer there has sent the packet. */
  lemma {:induction false} ActiveServes(s: State, steps: seq<Action>, r: State, t: nat)
    requires Inv(s) && Active(s, t) && Waits(s) && Run(s, steps, r) && r.senders == map[]
    requires KeepsPort(steps, s.accepted[s.done].iface)
    ensures s.sent < r.sent
    decreases |steps|
  {
    hide Inv, Waits, Can, Do;
    assert steps != [];
    var n := Do(s, steps[0]);
    StepKeeps(s, steps[0]);
    ActiveStep(s, steps[0], t);
    SentGrows(n, steps[1..], r);
    if s.sent == n.sent {
      ActiveServes(n, steps[1..], r, t);
    }
  }

  /**
   A packet waits, its port stays writable, and nobody is about to send: in a run after
   which all callers are gone a transfer has been started exactly when some caller found
   the counter at 0.
   */
  lemma {:induction false} ServedExactly(s: State, steps: seq<Action>, r: State)
    requires Inv(s) && NoneActive(s) && Waits(s) && Run(s, steps, r) && r.senders == map[]
    requires KeepsPort(steps, s.accepted[s.done].iface)
    ensures s.sent < r.sent <==> Wins(s, steps)
    decreases |steps|
  {
    hide Inv, Waits, NoneActive, Can, Do;
    if steps != [] {
      var a, rest := steps[0], steps[1..];
      var n := Do(s, a);
      StepKeeps(s, a);
      if a.Begin? && s.counter == 0 {
        WinStep(s, a.t);
        ActiveServes(n, rest, r, a.t);
      } else {
        IdleStep(s, a);
        ServedExactly(n, rest, r);
      }
    }
  }

  const ALL_PORTS: set<Port> := {0, 1, 2, 3}

  /**
   An attempt that finds the counter taken is not made up for: while one caller has found
   the port full but not yet taken its addition back, the handler learns that every port
   can write, tries to send and loses. Nobody has won, so nothing is sent, and nobody is
   left to send the packet.
   */
  lemma {:induction false} Stalls(slots: seq<Slot>, x: Slot)
    requires slots != []
    ensures exists steps: seq<Action>, s: State :: Run(Start(slots), steps, s)
              && s.lock.Open? && s.irq.Quiet? && s.dma.Idle? && s.senders == map[] && s.canWrite == ALL_PORTS
              && s.done < |s.accepted| && s.sent == []
  {
    hide *;
    var z := Start(slots);
    var m := FirstPacket(slots, x);
    var c := FindsPortFull(m);
    var before := [Begin(0), CheckRing(0), CheckPort(0), PortStatus(ALL_PORTS)];
    RunJoin(z, SubmitSteps(z, x), m, before, c);
    RunKeeps(z, SubmitSteps(z, x) + before, c);
    IsWaiting(c, x);
    var s := NobodyWins(c);
    RunJoin(z, SubmitSteps(z, x) + before, c, [Begin(1), Drop(1), Drop(0)], s);
  }

  lemma {:induction false} FirstPacket(slots: seq<Slot>, x: Slot) returns (m: State)
    requires slots != []
    ensures Inv(Start(slots)) && Shape(Start(slots).ring) && Run(Start(slots), SubmitSteps(Start(slots), x), m)
    ensures m == State(m.ring, Open, Quiet, Idle, 0, map[], {}, [x], 0, [], [])
    ensures Shape(m.ring) && m.ring.free < |m.ring.slots| && m.ring.slots == slots[0 := x] && m.ring.rd == 0
  {
    var z := Start(slots);
    StartInv(slots);
    SubmitRuns(z, x);
    EnqueueWrites(z.ring, x);
    hide Adding, Run, Inv, SubmitSteps;
    m := Submitted(z, x);
  }

  lemma {:induction false} IsWaiting(s: State, x: Slot)
    requires s.accepted == [x] && s.done == 0 && s.ring.free < |s.ring.slots| && s.canWrite == ALL_PORTS
    requires s.dma.Idle? && s.irq.Quiet? && s.lock.Open?
    ensures Waits(s) && Window(s) == 0
  {
  }

  /** A caller finds its port full, and has yet to take its addition back when every port can write. */
  lemma {:induction false} FindsPortFull(m: State) returns (s: State)
    requires Shape(m.ring) && m.senders == map[] && m.counter == 0 && m.canWrite == {} && m.ring.free != |m.ring.slots|
    ensures Run(m, [Begin(0), CheckRing(0), CheckPort(0), PortStatus(ALL_PORTS)], s)
    ensures s == m.(counter := 1, senders := map[0 := Lost], canWrite := ALL_PORTS)
  {
    var a := Do(m, Begin(0));
    var b := Do(a, CheckRing(0));
    var c := Do(b, CheckPort(0));
    s := Do(c, PortStatus(ALL_PORTS));
    RunOne(c, PortStatus(ALL_PORTS));
    hide Run;
    RunCons(b, CheckPort(0), [PortStatus(ALL_PORTS)], s);
    RunCons(a, CheckRing(0), [CheckPort(0), PortStatus(ALL_PORTS)], s);
    RunCons(m, Begin(0), [CheckRing(0), CheckPort(0), PortStatus(ALL_PORTS)], s);
  }

  lemma {:induction false} NoOtherBegin(s: State, steps: seq<Action>)
    requires steps != [] && s.counter != 0 && forall a :: a in steps[1..] ==> !a.Begin?
    ensures !Wins(s, steps)
  {
    if Can(s, steps[0]) {
      NoBegin(Do(s, steps[0]), steps[1..]);
    }
  }

  lemma {:induction false} NoBegin(s: State, steps: seq<Action>)
    requires forall a :: a in steps ==> !a.Begin?
    ensures !Wins(s, steps)
    decreases |steps|
  {
    if steps != [] && Can(s, steps[0]) {
      NoBegin(Do(s, steps[0]), steps[1..]);
    }
  }

  /** The attempt made then, and the first caller's last step: a run without a winner. */
  lemma {:induction false} NobodyWins(c: State) returns (s: State)
    requires Inv(c) && Shape(c.ring) && Window(c) == 0 && Waits(c) && c.counter == 1 && c.senders == map[0 := Lost]
    ensures Run(c, [Begin(1), Drop(1), Drop(0)], s)
    ensures s == c.(counter := 0, senders := map[]) && s.sent == c.sent
  {
    hide Inv, Waits, Run, Wins;
    var steps := [Begin(1), Drop(1), Drop(0)];
    var d := Do(c, Begin(1));
    var e := Do(d, Drop(1));
    s := Do(e, Drop(0));
    assert d.senders == map[0 := Lost, 1 := Lost] && e.senders == map[0 := Lost];
    NoOtherBegin(c, steps);
    RunOne(e, Drop(0));
    RunCons(d, Drop(1), [Drop(0)], s);
    RunCons(c, Begin(1), [Drop(1), Drop(0)], s);
    assert [Begin(1)] + [Drop(1), Drop(0)] == steps;
    SentGrows(c, steps, s);
    ServedExactly(c, steps, s);
  }

  // ----- the size of the pool

  ghost predicate NoneNegative(r: Ring) {
    Shape(r) && forall i: Port {:trigger r.port[i]} :: r.port[i] >= 0
  }

  /** A run that hands over no packet is polite. */
  lemma {:induction false} RestIsPolite(s: State, steps: seq<Action>, r: State)
    requires Run(s, steps, r) && forall a :: a in steps ==> !a.Submit?
    ensures PoliteRun(s, steps, r)
    decreases |steps|
  {
    if steps != [] {
      RestIsPolite(Do(s, steps[0]), steps[1..], r);
    }
  }

  lemma {:induction false} WritesOnly(a: Action, n: nat)
    ensures forall b :: b in Writes(a, n) ==> b == a
  {
    if n > 0 {
      WritesOnly(a, n - 1);
    }
  }

  /** No port count goes below zero in any polite run, exactly when the pool has a buffer for every port. */
  lemma {:induction false} QuotasExactly(slots: seq<Slot>)
    requires slots != []
    ensures (forall steps, s :: PoliteRun(Start(slots), steps, s) ==> NoneNegative(s.ring)) <==> |slots| >= MAX_IFACE
  {
    if |slots| >= MAX_IFACE {
      forall steps, s | PoliteRun(Start(slots), steps, s)
        ensures NoneNegative(s.ring)
      {
        QuotasHold(slots, steps, s);
      }
    } else {
      GoesNegative(slots, slots[0]);
    }
  }

  lemma {:induction false} GoesNegative(slots: seq<Slot>, x: Slot)
    requires 0 < |slots| < MAX_IFACE
    ensures exists steps, s :: PoliteRun(Start(slots), steps, s) && !NoneNegative(s.ring)
  {
    var z := Start(slots);
    var steps, s := SubmitSteps(z, x), Submitted(z, x);
    SubmitRuns(z, x);
    WritesOnly(TxWrite, 4);
    assert steps[0] == Submit(x) && steps[1..] == Writes(TxWrite, 4);
    RestIsPolite(Do(z, Submit(x)), steps[1..], s);
    assert PoliteRun(z, steps, s);
    SmallPool(slots, x);
    assert s.ring.port[x.iface] < 0;
  }
}
