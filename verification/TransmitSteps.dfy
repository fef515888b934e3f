/**
 The driver's transmit path as a step system: callers of the send function, interleaved at
 every access they make without a lock, the transmit function and the interrupt handler,
 which write the ring one field at a time under its lock, and the card's DMA engine.

 The last four fields of a state record the history of the run and guide no step.
 */
module TransmitSteps {
  import opened TransmitRing

  /** Where a caller of the send function is, between its add to the counter and its last step. */
  datatype Sender =
    | Lost                                // has still to take its addition back
    | Won                                 // the addition gave 1
    | Ready                               // found the ring not empty
    | Cleared(iface: Port)                // found the head's port able to take a packet
    | Grabbed(skb: nat, iface: Port)      // has the packet, and is about to start the transfer

  /** Who holds the ring's lock, and how many of its writes are done. */
  datatype Lock = Open | ByTx(iface: Port, stage: nat) | ByIrq(iface: Port, stage: nat)

  /** The interrupt handler before it takes the lock. */
  datatype Irq = Quiet | Seen | Freed(iface: Port)

  datatype Dma = Idle | Busy(x: Slot)

  datatype State = State(ring: Ring, lock: Lock, irq: Irq, dma: Dma, counter: int,
                         senders: map<nat, Sender>, canWrite: set<Port>,
                         accepted: seq<Slot>, done: nat, freed: seq<nat>, sent: seq<Slot>)

  datatype Action =
    | Submit(x: Slot)           // the kernel hands over a packet: lock, check, write the slot
    | TxWrite                   // the next write of the transmit function
    | Begin(t: nat)             // a caller adds to the counter
    | Drop(t: nat)              // a caller that lost takes its addition back
    | CheckRing(t: nat)
    | CheckPort(t: nat)
    | Grab(t: nat)
    | Program(t: nat)           // the last register write starts the transfer
    | PortStatus(ports: set<Port>)
    | Stop                      // the transfer completes or fails, and the handler is entered
    | FreeHead                  // completion: the handler frees the packet before it locks
    | TakeLock
    | Recover                   // error: the handler locks, then frees the packet
    | IrqWrite                  // the next write of the handler

  function Start(slots: seq<Slot>): State {
    State(Initial(slots), Open, Quiet, Idle, 0, map[], {}, [], 0, [], [])
  }

  predicate Can(s: State, a: Action) {
    Shape(s.ring) &&
    match a
    case Submit(x) => s.lock.Open?
    case TxWrite => s.lock.ByTx? && s.lock.stage <= 3
    case Begin(t) => t !in s.senders
    case Drop(t) => t in s.senders && s.senders[t].Lost?
    case CheckRing(t) => t in s.senders && s.senders[t].Won?
    case CheckPort(t) => t in s.senders && s.senders[t].Ready?
    case Grab(t) => t in s.senders && s.senders[t].Cleared?
    case Program(t) => t in s.senders && s.senders[t].Grabbed?
    case PortStatus(ports) => true
    case Stop => s.dma.Busy? && s.irq.Quiet? && !s.lock.ByIrq?
    case FreeHead => s.irq.Seen?
    case TakeLock => s.irq.Freed? && s.lock.Open?
    case Recover => s.irq.Seen? && s.lock.Open?
    case IrqWrite => s.lock.ByIrq? && s.lock.stage <= 4
  }

  function Head(s: State): Slot
    requires Shape(s.ring)
  {
    s.ring.slots[s.ring.rd]
  }

  function Do(s: State, a: Action): State
    requires Can(s, a)
  {
    match a
    case Submit(x) =>
      if s.ring.free == 0 then s
      else s.(ring := PutSlot(s.ring, x), lock := ByTx(x.iface, 0), accepted := s.accepted + [x])
    case TxWrite => DoTxWrite(s)
    case Begin(t) =>
      s.(counter := s.counter + 1, senders := s.senders[t := if s.counter + 1 == 1 then Won else Lost])
    case Drop(t) => s.(counter := s.counter - 1, senders := s.senders - {t})
    case CheckRing(t) => s.(senders := s.senders[t := if s.ring.free == |s.ring.slots| then Lost else Ready])
    case CheckPort(t) =>
      s.(senders := s.senders[t := if Head(s).iface in s.canWrite then Cleared(Head(s).iface) else Lost])
    case Grab(t) => s.(senders := s.senders[t := Grabbed(Head(s).skb, s.senders[t].iface)])
    case Program(t) =>
      var x := Slot(s.senders[t].skb, s.senders[t].iface);
      s.(dma := Busy(x), senders := s.senders - {t}, sent := s.sent + [x])
    case PortStatus(ports) => s.(canWrite := ports)
    case Stop => s.(dma := Idle, irq := Seen)
    case FreeHead =>
      if s.counter == 0 then s.(irq := Quiet)
      else s.(irq := Freed(Head(s).iface), freed := s.freed + [Head(s).skb])
    case TakeLock => s.(irq := Quiet, lock := ByIrq(s.irq.iface, 0), done := s.done + 1)
    case Recover =>
      if s.counter == 0 then s.(irq := Quiet)
      else s.(irq := Quiet, lock := ByIrq(Head(s).iface, 0), done := s.done + 1, freed := s.freed + [Head(s).skb])
    case IrqWrite => DoIrqWrite(s)
  }

  function DoTxWrite(s: State): State
    requires Can(s, TxWrite)
  {
    var i := s.lock.iface;
    match s.lock.stage
    case 0 => s.(ring := MoveWr(s.ring), lock := ByTx(i, 1))
    case 1 => s.(ring := TakeFree(s.ring), lock := ByTx(i, 2))
    case 2 => s.(ring := TakePort(s.ring, i), lock := ByTx(i, 3))
    case _ => s.(ring := StopIfFull(s.ring, i), lock := Open)
  }

  /** The buffer is given back before the counter goes down. */
  function DoIrqWrite(s: State): State
    requires Can(s, IrqWrite)
  {
    var i := s.lock.iface;
    match s.lock.stage
    case 0 => s.(ring := MoveRd(s.ring), lock := ByIrq(i, 1))
    case 1 => s.(ring := GiveFree(s.ring), lock := ByIrq(i, 2))
    case 2 => s.(ring := GivePort(s.ring, i), lock := ByIrq(i, 3))
    case 3 => s.(counter := s.counter - 1, lock := ByIrq(i, 4))
    case _ => s.(ring := WakeIfFirst(s.ring, i), lock := Open)
  }

  // ----- the invariant

  /** The ring once whoever holds its lock is finished. */
  function Settled(s: State): (r: Ring)
    requires Shape(s.ring)
    ensures Shape(r)
  {
    match s.lock
    case Open => s.ring
    case ByTx(i, stage) => Adding(s.ring, i, stage)
    case ByIrq(i, stage) => Taking(s.ring, i, stage)
  }

  /** One from the start of a transfer until the handler takes it off the counter. */
  function Window(s: State): nat {
    (if s.dma.Busy? then 1 else 0) + (if s.irq.Quiet? then 0 else 1)
    + (if s.lock.ByIrq? && s.lock.stage <= 3 then 1 else 0)
  }

  /** The counter is the callers between add and subtract plus the transfer under way; at most one of these acts. */
  ghost predicate Counted(s: State) {
    && s.counter == |s.senders| + Window(s) && Window(s) <= 1
    && (forall t, u :: t in s.senders && u in s.senders && !s.senders[t].Lost? && !s.senders[u].Lost? ==> t == u)
    && (Window(s) == 1 ==> forall t :: t in s.senders ==> s.senders[t].Lost?)
  }

  ghost predicate Ringed(s: State) {
    && Shape(s.ring) && Holds(Settled(s), s.accepted, s.done)
    && (s.lock.ByTx? ==> s.lock.stage <= 3 && s.done < |s.accepted|)
    && (s.lock.ByIrq? ==> s.lock.stage <= 4)
  }

  /** What a caller that won the counter has read is the oldest packet of the ring. */
  ghost predicate Reads(accepted: seq<Slot>, done: nat, p: Sender) {
    match p
    case Lost => true
    case Won => true
    case Ready => done < |accepted|
    case Cleared(i) => done < |accepted| && i == accepted[done].iface
    case Grabbed(k, i) => done < |accepted| && accepted[done] == Slot(k, i)
  }

  ghost predicate Reading(s: State) {
    && (forall t :: t in s.senders ==> Reads(s.accepted, s.done, s.senders[t]))
    && (s.dma.Busy? ==> s.done < |s.accepted| && s.dma.x == s.accepted[s.done])
    && (!s.irq.Quiet? ==> s.done < |s.accepted|)
    && (s.irq.Freed? ==> s.irq.iface == s.accepted[s.done].iface)
  }

  /** Packets are transferred and freed in the order they were accepted, each once. */
  ghost predicate InOrder(s: State) {
    && s.done <= |s.accepted|
    && (s.irq.Freed? || s.irq.Seen? || s.dma.Busy? ==> s.done < |s.accepted|)
    && s.freed == Skbs(s.accepted[..if s.irq.Freed? then s.done + 1 else s.done])
    && s.sent == s.accepted[..if s.dma.Busy? || !s.irq.Quiet? then s.done + 1 else s.done]
  }

  ghost predicate Inv(s: State) {
    Counted(s) && Ringed(s) && Reading(s) && InOrder(s)
  }

  // ----- every step keeps it

  lemma {:induction false} StartInv(slots: seq<Slot>)
    requires slots != []
    ensures Inv(Start(slots))
  {
    InitiallyBalanced(slots);
  }

  lemma {:induction false} AddingStep(s: State)
    requires Can(s, TxWrite)
    ensures Shape(Do(s, TxWrite).ring) && Settled(Do(s, TxWrite)) == Settled(s)
  {
  }

  lemma {:induction false} TakingStep(s: State)
    requires Can(s, IrqWrite)
    ensures Shape(Do(s, IrqWrite).ring) && Settled(Do(s, IrqWrite)) == Settled(s)
  {
  }

  /** Pending writes never touch the slots, and move the read position only at the handler's first write. */
  lemma {:induction false} AddingKeepsHead(r: Ring, i: Port, stage: nat)
    requires Shape(r)
    ensures Adding(r, i, stage).slots == r.slots && Adding(r, i, stage).rd == r.rd
    decreases 4 - stage
  {
    match stage
    case 0 => AddingKeepsHead(MoveWr(r), i, 1);
    case 1 => AddingKeepsHead(TakeFree(r), i, 2);
    case 2 => AddingKeepsHead(TakePort(r, i), i, 3);
    case _ =>
  }

  lemma {:induction false} AddingFree(r: Ring, i: Port, stage: nat)
    requires Shape(r)
    ensures Adding(r, i, stage).free == if stage <= 1 then r.free - 1 else r.free
    decreases 4 - stage
  {
    match stage
    case 0 => AddingFree(MoveWr(r), i, 1);
    case 1 => AddingFree(TakeFree(r), i, 2);
    case 2 => AddingFree(TakePort(r, i), i, 3);
    case _ =>
  }

  lemma {:induction false} TakingKeepsHead(r: Ring, i: Port, stage: nat)
    requires Shape(r) && stage >= 1
    ensures Taking(r, i, stage).slots == r.slots && Taking(r, i, stage).rd == r.rd
    ensures stage >= 2 ==> Taking(r, i, stage).free == r.free
    decreases 5 - stage
  {
    match stage
    case 1 => TakingKeepsHead(GiveFree(r), i, 2);
    case 2 => TakingKeepsHead(GivePort(r, i), i, 3);
    case 3 => TakingKeepsHead(r, i, 4);
    case _ =>
  }

  /** Whoever may read the head while no transfer is under way reads the oldest packet. */
  lemma {:induction false} HeadIsOldest(s: State)
    requires Ringed(s) && s.done < |s.accepted| && !(s.lock.ByIrq? && s.lock.stage == 0)
    ensures Head(s) == s.accepted[s.done]
  {
    var r := Settled(s);
    match s.lock {
      case Open =>
      case ByTx(i, stage) => AddingKeepsHead(s.ring, i, stage);
      case ByIrq(i, stage) => TakingKeepsHead(s.ring, i, stage);
    }
    assert At(r, s.done) == s.accepted[s.done];
  }

  /** The unlocked look at the free count never sees packets that are not there. */
  lemma {:induction false} NotEmpty(s: State)
    requires Ringed(s) && s.ring.free != |s.ring.slots| && !(s.lock.ByIrq? && s.lock.stage <= 3)
    ensures s.done < |s.accepted|
  {
    match s.lock {
      case Open =>
      case ByTx(i, stage) =>
      case ByIrq(i, stage) => TakingKeepsHead(s.ring, i, stage);
    }
  }

  lemma {:induction false} SubmitKeeps(s: State, x: Slot)
    requires Inv(s) && Can(s, Submit(x))
    ensures Inv(Do(s, Submit(x)))
  {
    if s.ring.free != 0 {
      var r := Do(s, Submit(x));
      EnqueueAppends(s.ring, s.accepted, s.done, x);
      hide Holds, Adding;
      assert forall n :: 0 <= n <= |s.accepted| ==> r.accepted[..n] == s.accepted[..n];
    }
  }

  lemma {:induction false} WriteKeeps(s: State, a: Action)
    requires Inv(s) && Can(s, a) && (a == TxWrite || a == IrqWrite)
    ensures Inv(Do(s, a))
  {
    if a == TxWrite {
      AddingStep(s);
    } else {
      TakingStep(s);
    }
    hide Holds, Adding, Taking, Skbs;
  }

  /** Callers come and go without touching the ring or the handler. */
  lemma {:induction false} SendersOnly(s: State, counter: int, senders: map<nat, Sender>)
    requires Ringed(s) && InOrder(s)
    ensures var r := s.(counter := counter, senders := senders);
            Ringed(r) && InOrder(r)
  {
    hide Holds, Adding, Taking, Skbs;
  }

  lemma {:induction false} BeginKeeps(s: State, t: nat)
    requires Inv(s) && Can(s, Begin(t))
    ensures Inv(Do(s, Begin(t)))
  {
    hide Ringed, InOrder;
    var r := Do(s, Begin(t));
    SendersOnly(s, r.counter, r.senders);
    if |s.senders| > 0 {
      assert s.counter + 1 != 1;
    } else {
      assert s.senders == map[];
    }
  }

  lemma {:induction false} Leave(m: map<nat, Sender>, t: nat)
    requires t in m
    ensures |m - {t}| == |m| - 1
  {
    assert (m - {t})[t := m[t]] == m;
  }

  lemma {:induction false} LeaveKeeps(s: State, a: Action)
    requires Inv(s) && Can(s, a) && (a.Drop? || a.Program?)
    ensures Inv(Do(s, a))
  {
    hide Holds, Adding, Taking, Skbs;
    Leave(s.senders, a.t);
    if a.Program? {
      assert !s.senders[a.t].Lost? && Reads(s.accepted, s.done, s.senders[a.t]);
      assert s.accepted[..s.done + 1] == s.accepted[..s.done] + [s.accepted[s.done]];
    }
  }

  lemma {:induction false} LookKeeps(s: State, a: Action)
    requires Inv(s) && Can(s, a) && (a.CheckRing? || a.CheckPort? || a.Grab?)
    ensures Inv(Do(s, a))
  {
    var r := Do(s, a);
    assert Reads(s.accepted, s.done, s.senders[a.t]) && !s.senders[a.t].Lost?;
    assert Window(s) == 0;
    assert |r.senders| == |s.senders|;
    if a.CheckRing? && s.ring.free != |s.ring.slots| {
      NotEmpty(s);
    }
    if s.done < |s.accepted| {
      HeadIsOldest(s);
    }
    SendersOnly(s, r.counter, r.senders);
    hide Ringed, InOrder;
    assert Reads(r.accepted, r.done, r.senders[a.t]);
  }

  lemma {:induction false} HandlerKeeps(s: State, a: Action)
    requires Inv(s) && Can(s, a) && (a == FreeHead || a == TakeLock || a == Recover)
    ensures Inv(Do(s, a))
  {
    assert s.counter > 0 && !(s.lock.ByIrq? && s.lock.stage == 0);
    HeadIsOldest(s);
    assert s.accepted[..s.done + 1] == s.accepted[..s.done] + [s.accepted[s.done]];
    assert Skbs(s.accepted[..s.done + 1]) == Skbs(s.accepted[..s.done]) + [s.accepted[s.done].skb];
    if a != FreeHead {
      FinishRemoves(s.ring, s.accepted, s.done);
    }
    hide Holds, Adding, Taking, Skbs;
  }

  /** Every step keeps the invariant. */
  lemma {:induction false} StepKeeps(s: State, a: Action)
    requires Inv(s) && Can(s, a)
    ensures Inv(Do(s, a))
  {
    match a {
      case Submit(x) => SubmitKeeps(s, x);
      case TxWrite => WriteKeeps(s, a);
      case IrqWrite => WriteKeeps(s, a);
      case Begin(t) => BeginKeeps(s, t);
      case Drop(t) => LeaveKeeps(s, a);
      case Program(t) => LeaveKeeps(s, a);
      case CheckRing(t) => LookKeeps(s, a);
      case CheckPort(t) => LookKeeps(s, a);
      case Grab(t) => LookKeeps(s, a);
      case FreeHead => HandlerKeeps(s, a);
      case TakeLock => HandlerKeeps(s, a);
      case Recover => HandlerKeeps(s, a);
      case PortStatus(ports) =>
      case Stop =>
    }
  }

  // ----- quotas, when packets are handed over on awake queues only

  ghost predicate Quotas(s: State) {
    && Shape(s.ring) && s.done <= |s.accepted|
    && Balanced(Settled(s), s.accepted[s.done..])
    && s.ring.free >= 0 && forall i: Port {:trigger s.ring.port[i]} :: s.ring.port[i] >= 0
  }

  /** The kernel calls the transmit function on queues that are not stopped. */
  predicate Polite(s: State, a: Action) {
    a.Submit? && Can(s, a) ==> !s.ring.stopped[a.x.iface]
  }

  /** The branch that finds no buffer is never taken: an awake queue always has one. */
  lemma {:induction false} BufferAvailable(s: State, x: Slot)
    requires Inv(s) && Quotas(s) && Can(s, Submit(x)) && !s.ring.stopped[x.iface]
    ensures s.ring.free > 0 && s.ring.port[x.iface] > 0
  {
    AwakeHasBuffer(s.ring, s.accepted[s.done..], x.iface);
    assert s.ring.port[x.iface] > 0;
  }

  lemma {:induction false} SubmitQuotas(s: State, x: Slot)
    requires Inv(s) && Quotas(s) && Can(s, Submit(x)) && !s.ring.stopped[x.iface]
    ensures Quotas(Do(s, Submit(x)))
  {
    BufferAvailable(s, x);
    EnqueueBalanced(s.ring, s.accepted[s.done..], x);
    assert (s.accepted + [x])[s.done..] == s.accepted[s.done..] + [x];
    hide Holds, Adding, Balanced;
  }

  /** No write takes a count below zero. */
  lemma {:induction false} WriteQuotas(s: State, a: Action)
    requires Inv(s) && Quotas(s) && Can(s, a) && (a == TxWrite || a == IrqWrite)
    ensures Quotas(Do(s, a))
  {
    var r := Do(s, a);
    if a == TxWrite {
      AddingStep(s);
      AddingFree(s.ring, s.lock.iface, s.lock.stage);
      if s.lock.stage == 2 {
        AddingPort(r.ring, s.lock.iface);
        var i := s.lock.iface;
        assert Settled(r).port[i] >= 0;
      }
    } else {
      TakingStep(s);
    }
    hide Adding, Taking, CountFor;
  }

  lemma {:induction false} AddingPort(r: Ring, i: Port)
    requires Shape(r)
    ensures Adding(r, i, 3).port == r.port
  {
  }

  lemma {:induction false} HandlerQuotas(s: State, a: Action)
    requires Inv(s) && Quotas(s) && Can(s, a) && (a == FreeHead || a == TakeLock || a == Recover)
    ensures Quotas(Do(s, a))
  {
    assert s.counter > 0;
    if a != FreeHead {
      HeadIsOldest(s);
      FinishBalanced(s.ring, s.accepted[s.done..]);
      assert s.accepted[s.done..][1..] == s.accepted[s.done + 1..];
    }
    hide Holds, Taking, Balanced;
  }

  /** Free buffers and packets of each port always make up its quota, and no count goes negative. */
  lemma {:induction false} StepKeepsQuotas(s: State, a: Action)
    requires Inv(s) && Quotas(s) && Can(s, a) && Polite(s, a)
    ensures Quotas(Do(s, a))
  {
    match a {
      case Submit(x) => SubmitQuotas(s, x);
      case TxWrite => WriteQuotas(s, a);
      case IrqWrite => WriteQuotas(s, a);
      case FreeHead => HandlerQuotas(s, a);
      case TakeLock => HandlerQuotas(s, a);
      case Recover => HandlerQuotas(s, a);
      case _ => hide Inv, Adding, Taking, Balanced;
    }
  }

  // ----- runs

  ghost predicate Run(s: State, steps: seq<Action>, r: State)
    decreases |steps|
  {
    if steps == [] then r == s
    else Can(s, steps[0]) && Run(Do(s, steps[0]), steps[1..], r)
  }

  ghost predicate PoliteRun(s: State, steps: seq<Action>, r: State)
    decreases |steps|
  {
    if steps == [] then r == s
    else Can(s, steps[0]) && Polite(s, steps[0]) && PoliteRun(Do(s, steps[0]), steps[1..], r)
  }

  lemma {:induction false} RunKeeps(s: State, steps: seq<Action>, r: State)
    requires Inv(s) && Run(s, steps, r)
    ensures Inv(r)
    decreases |steps|
  {
    hide Inv;
    if steps != [] {
      StepKeeps(s, steps[0]);
      RunKeeps(Do(s, steps[0]), steps[1..], r);
    }
  }

  lemma {:induction false} RunKeepsQuotas(s: State, steps: seq<Action>, r: State)
    requires Inv(s) && Quotas(s) && PoliteRun(s, steps, r)
    ensures Inv(r) && Quotas(r)
    decreases |steps|
  {
    hide Inv, Quotas;
    if steps != [] {
      StepKeeps(s, steps[0]);
      StepKeepsQuotas(s, steps[0]);
      RunKeepsQuotas(Do(s, steps[0]), steps[1..], r);
    }
  }

  /**
   In every state a run can reach: the counter is the callers between add and subtract
   plus the transfer under way; of those that may program the card there is at most one,
   and none while a transfer is under way; and what it is about to transfer is the oldest
   packet that is still in the ring.
   */
  lemma {:induction false} MutualExclusion(slots: seq<Slot>, steps: seq<Action>, s: State)
    requires slots != [] && Run(Start(slots), steps, s)
    ensures s.counter == |s.senders| + Window(s)
    ensures forall t, u :: t in s.senders && u in s.senders && s.senders[t].Grabbed? && !s.senders[u].Lost? ==> t == u
    ensures forall t :: t in s.senders && s.senders[t].Grabbed? ==>
              s.dma.Idle? && s.done < |s.accepted| && s.accepted[s.done] == Slot(s.senders[t].skb, s.senders[t].iface)
  {
    StartInv(slots);
    RunKeeps(Start(slots), steps, s);
    assert forall t :: t in s.senders ==> Reads(s.accepted, s.done, s.senders[t]);
  }

  /**
   In every state a run can reach in which the lock is free: the ring holds exactly the
   accepted packets that are not finished, in order, its counters agree, and packets have
   been transferred and freed in the order they were accepted.
   */
  lemma {:induction false} RingIsQueue(slots: seq<Slot>, steps: seq<Action>, s: State)
    requires slots != [] && Run(Start(slots), steps, s) && s.lock.Open?
    ensures Shape(s.ring) && 0 <= s.ring.free <= |s.ring.slots| && s.done <= |s.accepted|
    ensures s.ring.wr == (s.ring.rd + |s.ring.slots| - s.ring.free) % |s.ring.slots|
    ensures Contents(s.ring) == s.accepted[s.done..]
    ensures s.freed <= Skbs(s.accepted) && s.sent <= s.accepted
    ensures s.done <= |s.freed| <= |s.sent| <= s.done + 1
  {
    StartInv(slots);
    RunKeeps(Start(slots), steps, s);
    RingRefinesQueue(s.ring, s.accepted, s.done);
  }

  /** After release drains the ring every accepted packet has been freed, exactly once and in order. */
  lemma {:induction false} ReleaseFreesRest(slots: seq<Slot>, steps: seq<Action>, s: State)
    requires slots != [] && Run(Start(slots), steps, s) && s.lock.Open? && s.irq.Quiet?
    ensures Shape(s.ring) && s.freed + DrainedSkbs(s.ring) == Skbs(s.accepted)
    ensures Drained(s.ring).free == |s.ring.slots|
  {
    StartInv(slots);
    RunKeeps(Start(slots), steps, s);
    hide Run, Drained, DrainedSkbs;
    DrainFreesAll(s.ring, s.accepted, s.done);
  }

  /** With a buffer for every port and packets handed over on awake queues only, quotas hold throughout. */
  lemma {:induction false} QuotasHold(slots: seq<Slot>, steps: seq<Action>, s: State)
    requires |slots| >= MAX_IFACE && PoliteRun(Start(slots), steps, s)
    ensures Inv(s) && Quotas(s)
    ensures forall x :: Can(s, Submit(x)) && !s.ring.stopped[x.iface] ==> s.ring.free > 0
  {
    StartInv(slots);
    InitiallyBalanced(slots);
    var r := Initial(slots);
    assert r.port[0] >= 0 && r.port[1] >= 0 && r.port[2] >= 0 && r.port[3] >= 0;
    RunKeepsQuotas(Start(slots), steps, s);
    forall x | Can(s, Submit(x)) && !s.ring.stopped[x.iface]
      ensures s.ring.free > 0
    {
      BufferAvailable(s, x);
    }
  }

  /** A caller wins the counter exactly when no other caller is at it and no transfer is under way. */
  lemma {:induction false} BeginWins(s: State, t: nat)
    requires Inv(s) && Can(s, Begin(t))
    ensures Do(s, Begin(t)).senders[t].Won? <==> s.senders == map[] && Window(s) == 0
  {
    if |s.senders| == 0 {
      assert s.senders == map[];
    }
    hide Ringed, InOrder, Reading;
  }

  // ----- what the assumptions are for

  /** From here on no packet is freed before its transfer has been started. */
  ghost predicate Safe(z: State) {
    forall steps, r :: Run(z, steps, r) ==> |r.freed| <= |r.sent|
  }

  /** Entering the handler as for a finished transfer keeps the invariant exactly when a transfer was under way. */
  lemma {:induction false} StopNeedsTransfer(s: State)
    requires Inv(s) && s.irq.Quiet? && !s.lock.ByIrq?
    ensures Inv(s.(dma := Idle, irq := Seen)) <==> s.dma.Busy?
  {
    hide Holds, Adding, Taking, Skbs;
    var r := s.(dma := Idle, irq := Seen);
    assert r.senders == s.senders;
  }

  /**
   Entering the handler as for a finished transfer is safe, whatever happens next, exactly
   when a transfer was under way: otherwise the handler's own look at the counter is
   deceived by any caller that has added to it.
   */
  lemma {:induction false} StopIsSafe(s: State)
    requires Inv(s) && s.irq.Quiet? && !s.lock.ByIrq?
    ensures Safe(s.(dma := Idle, irq := Seen)) <==> s.dma.Busy?
  {
    var z := s.(dma := Idle, irq := Seen);
    StopNeedsTransfer(s);
    if s.dma.Busy? {
      forall steps, r | Run(z, steps, r)
        ensures |r.freed| <= |r.sent|
      {
        RunKeeps(z, steps, r);
      }
    } else {
      FreesTooEarly(s);
    }
  }

  lemma {:induction false} FreesTooEarly(s: State)
    requires Inv(s) && s.irq.Quiet? && !s.lock.ByIrq? && s.dma.Idle?
    ensures exists steps, r :: Run(s.(irq := Seen), steps, r) && |r.freed| > |r.sent|
  {
    var z := s.(irq := Seen);
    if s.counter != 0 {
      var a := Do(z, FreeHead);
      assert Run(a, [], a);
      RunsOne(z, [FreeHead], a, a);
      assert |a.freed| > |a.sent|;
    } else {
      assert |s.senders| == 0 && 0 !in s.senders;
      var a := Do(z, Begin(0));
      var b := Do(a, FreeHead);
      assert Run(b, [], b);
      RunsOne(a, [FreeHead], b, b);
      RunsOne(z, [Begin(0), FreeHead], a, b);
      assert |b.freed| > |b.sent|;
    }
  }

  /** Its look at the counter makes an entry without a transfer harmless exactly when no caller is there at that moment. */
  lemma {:induction false} HarmlessStop(s: State)
    requires Inv(s) && s.irq.Quiet? && !s.lock.ByIrq? && s.dma.Idle?
    ensures Do(s.(irq := Seen), FreeHead) == s <==> s.senders == map[]
  {
    if s.counter == 0 {
      assert |s.senders| == 0;
    }
  }

  /**
   A caller between its two accesses to the counter is enough for the handler to free a
   packet that was never accepted and to count more free buffers than there are.
   */
  lemma {:induction false} SpuriousStop(slots: seq<Slot>)
    requires slots != []
    ensures var s := Do(Start(slots), Begin(0)).(irq := Seen);
            exists r :: Run(s, [FreeHead, TakeLock, IrqWrite, IrqWrite], r)
              && r.accepted == [] && r.freed == [slots[0].skb] && r.ring.free == |slots| + 1
  {
    var s := Do(Start(slots), Begin(0)).(irq := Seen);
    var a := Do(s, FreeHead);
    var b := Do(a, TakeLock);
    var c := Do(b, IrqWrite);
    var d := Do(c, IrqWrite);
    assert Run(d, [], d);
    RunsOne(c, [IrqWrite], d, d);
    RunsOne(b, [IrqWrite, IrqWrite], c, d);
    RunsOne(a, [TakeLock, IrqWrite, IrqWrite], b, d);
    RunsOne(s, [FreeHead, TakeLock, IrqWrite, IrqWrite], a, d);
  }

  lemma {:induction false} RunsOne(s: State, steps: seq<Action>, n: State, r: State)
    requires steps != [] ==> Can(s, steps[0]) && n == Do(s, steps[0]) && Run(n, steps[1..], r)
    ensures steps != [] ==> Run(s, steps, r)
  {
  }

  /** In a pool too small to give every port a buffer, the first packet takes its port's count below zero. */
  lemma {:induction false} SmallPool(slots: seq<Slot>, x: Slot)
    requires 0 < |slots| < MAX_IFACE
    ensures Enqueued(Initial(slots), x).port[x.iface] == -1
  {
    EnqueueWrites(Initial(slots), x);
  }
}
