/**
 The driver's transmit functions on the card's own fields. Run undisturbed, each is one
 run of the step system, so everything proved of its runs holds here.
 */
module TransmitCard {
  import opened TransmitRing
  import opened TransmitSteps

  // ----- undisturbed runs

  lemma {:induction false} RunJoin(s: State, xs: seq<Action>, m: State, ys: seq<Action>, r: State)
    requires Run(s, xs, m) && Run(m, ys, r)
    ensures Run(s, xs + ys, r)
    decreases |xs|
  {
    if xs == [] {
      assert xs + ys == ys;
    } else {
      assert (xs + ys)[1..] == xs[1..] + ys;
      RunJoin(Do(s, xs[0]), xs[1..], m, ys, r);
    }
  }

  lemma {:induction false} RunOne(s: State, a: Action)
    requires Can(s, a)
    ensures Run(s, [a], Do(s, a))
  {
    assert Run(Do(s, a), [a][1..], Do(s, a));
  }

  lemma {:induction false} RunCons(s: State, a: Action, rest: seq<Action>, r: State)
    requires Can(s, a) && Run(Do(s, a), rest, r)
    ensures Run(s, [a] + rest, r)
  {
    assert ([a] + rest)[1..] == rest;
  }

  function Writes(a: Action, n: nat): seq<Action> {
    if n == 0 then [] else [a] + Writes(a, n - 1)
  }

  /** The transmit function's remaining writes settle the ring. */
  lemma {:induction false} TxWritesRun(s: State)
    requires Shape(s.ring) && s.lock.ByTx? && s.lock.stage <= 3
    ensures Run(s, Writes(TxWrite, 4 - s.lock.stage), s.(ring := Settled(s), lock := Open))
    decreases 4 - s.lock.stage
  {
    var r := Do(s, TxWrite);
    AddingStep(s);
    if s.lock.stage < 3 {
      TxWritesRun(r);
    } else {
      assert Run(r, Writes(TxWrite, 0), r);
    }
    hide Adding;
    RunCons(s, TxWrite, Writes(TxWrite, 3 - s.lock.stage), s.(ring := Settled(s), lock := Open));
  }

  /** The handler's remaining writes settle the ring and take the transfer off the counter. */
  lemma {:induction false} IrqWritesRun(s: State)
    requires Shape(s.ring) && s.lock.ByIrq? && s.lock.stage <= 4
    ensures Run(s, Writes(IrqWrite, 5 - s.lock.stage),
                s.(ring := Settled(s), lock := Open, counter := if s.lock.stage <= 3 then s.counter - 1 else s.counter))
    decreases 5 - s.lock.stage
  {
    var r := Do(s, IrqWrite);
    TakingStep(s);
    if s.lock.stage < 4 {
      IrqWritesRun(r);
    } else {
      assert Run(r, Writes(IrqWrite, 0), r);
    }
    hide Taking;
    RunCons(s, IrqWrite, Writes(IrqWrite, 4 - s.lock.stage),
      s.(ring := Settled(s), lock := Open, counter := if s.lock.stage <= 3 then s.counter - 1 else s.counter));
  }

  function Submitted(s: State, x: Slot): State
    requires Shape(s.ring)
  {
    if s.ring.free == 0 then s else s.(ring := Enqueued(s.ring, x), accepted := s.accepted + [x])
  }

  function SubmitSteps(s: State, x: Slot): seq<Action> {
    [Submit(x)] + Writes(TxWrite, if s.ring.free == 0 then 0 else 4)
  }

  lemma {:induction false} SubmitRuns(s: State, x: Slot)
    requires Shape(s.ring) && s.lock.Open?
    ensures Run(s, SubmitSteps(s, x), Submitted(s, x))
  {
    var a := Do(s, Submit(x));
    if s.ring.free == 0 {
      assert Run(a, Writes(TxWrite, 0), a);
    } else {
      TxWritesRun(a);
    }
    hide Adding, Run, Writes;
    RunCons(s, Submit(x), Writes(TxWrite, if s.ring.free == 0 then 0 else 4), Submitted(s, x));
  }

  /** What the send function does when nobody interferes: it starts the head's transfer if it can. */
  function Started(s: State): State
    requires Shape(s.ring)
  {
    if s.counter != 0 || s.ring.free == |s.ring.slots| || Head(s).iface !in s.canWrite then s
    else s.(counter := 1, dma := Busy(Head(s)), sent := s.sent + [Head(s)])
  }

  function SendSteps(s: State): seq<Action>
    requires Shape(s.ring)
  {
    if s.counter != 0 then [Begin(0), Drop(0)]
    else if s.ring.free == |s.ring.slots| then [Begin(0), CheckRing(0), Drop(0)]
    else if Head(s).iface !in s.canWrite then [Begin(0), CheckRing(0), CheckPort(0), Drop(0)]
    else [Begin(0), CheckRing(0), CheckPort(0), Grab(0), Program(0)]
  }

  lemma {:induction false} SendRuns(s: State)
    requires Shape(s.ring) && s.senders == map[] && s.counter >= 0
    ensures Run(s, SendSteps(s), Started(s))
  {
    var a := Do(s, Begin(0));
    if s.counter != 0 {
      RunOne(a, Drop(0));
      RunsOne(s, SendSteps(s), a, Do(a, Drop(0)));
    } else {
      var b := Do(a, CheckRing(0));
      if s.ring.free == |s.ring.slots| {
        RunOne(b, Drop(0));
      } else {
        HeadRuns(s, b);
      }
      hide Run;
      RunCons(a, CheckRing(0), SendSteps(s)[2..], Started(s));
      RunCons(s, Begin(0), SendSteps(s)[1..], Started(s));
    }
  }

  /** The send function from where it found the ring not empty. */
  lemma {:induction false} HeadRuns(s: State, b: State)
    requires Shape(s.ring) && s.senders == map[] && s.counter == 0 && s.ring.free != |s.ring.slots|
    requires b == s.(counter := 1, senders := map[0 := Ready])
    ensures Run(b, SendSteps(s)[2..], Started(s))
  {
    var c := Do(b, CheckPort(0));
    if Head(s).iface !in s.canWrite {
      RunOne(c, Drop(0));
      RunsOne(b, [CheckPort(0), Drop(0)], c, Do(c, Drop(0)));
    } else {
      var d := Do(c, Grab(0));
      var e := Do(d, Program(0));
      RunOne(d, Program(0));
      hide Run;
      RunCons(c, Grab(0), [Program(0)], e);
      RunCons(b, CheckPort(0), [Grab(0), Program(0)], e);
    }
  }

  /** The handler's work for a finished transfer, up to the wake-up of the port's queue. */
  function Completed(s: State): State
    requires Shape(s.ring)
  {
    s.(ring := Finished(s.ring), dma := Idle, counter := s.counter - 1, done := s.done + 1,
       freed := s.freed + [Head(s).skb])
  }

  function CompleteSteps(): seq<Action> {
    [Stop] + ([FreeHead] + ([TakeLock] + Writes(IrqWrite, 5)))
  }

  lemma {:induction false} CompleteRuns(s: State)
    requires Shape(s.ring) && s.lock.Open? && s.irq.Quiet? && s.dma.Busy? && s.counter != 0
    ensures Run(s, CompleteSteps(), Completed(s))
  {
    var a := Do(s, Stop);
    var b := Do(a, FreeHead);
    var c := Do(b, TakeLock);
    IrqWritesRun(c);
    assert c == s.(irq := Quiet, dma := Idle, lock := ByIrq(Head(s).iface, 0), done := s.done + 1,
                   freed := s.freed + [Head(s).skb]);
    hide Run, Writes, Taking;
    RunCons(b, TakeLock, Writes(IrqWrite, 5), Completed(s));
    RunCons(a, FreeHead, [TakeLock] + Writes(IrqWrite, 5), Completed(s));
    RunCons(s, Stop, [FreeHead] + ([TakeLock] + Writes(IrqWrite, 5)), Completed(s));
  }

  // ----- the card

  class Card {
    const pool: nat
    const txbuff: array<Slot>
    const freePort: array<int>
    const stopped: array<bool>
    var wr: nat
    var rd: nat
    var free: int
    var dmaTxInProgress: int
    var canWrite: set<Port>
    var dma: Dma
    ghost var accepted: seq<Slot>
    ghost var done: nat
    ghost var freed: seq<nat>
    ghost var sent: seq<Slot>

    ghost function View(): State
      reads this, txbuff, freePort, stopped
    {
      State(Ring(txbuff[..], wr, rd, free, freePort[..], stopped[..]), Open, Quiet, dma, dmaTxInProgress,
            map[], canWrite, accepted, done, freed, sent)
    }

    ghost predicate Valid()
      reads this, txbuff, freePort, stopped
    {
      txbuff.Length == pool && Inv(View())
    }

    constructor (pool: nat)
      requires pool > 0
      ensures Valid() && this.pool == pool && View() == Start(txbuff[..])
      ensures fresh(txbuff) && fresh(freePort) && fresh(stopped)
    {
      this.pool := pool;
      txbuff := new Slot[pool](_ => Slot(0, 0));
      freePort := new int[MAX_IFACE](_ => pool / MAX_IFACE);
      stopped := new bool[MAX_IFACE](_ => false);
      wr, rd, free, dmaTxInProgress, canWrite, dma := 0, 0, pool, 0, {}, Idle;
      accepted, done, freed, sent := [], 0, [], [];
      new;
      StartInv(txbuff[..]);
      assert View().ring == Initial(txbuff[..]);
    }

    /** Queues a packet if a buffer is free, and stops the port's queue when its quota is used up. */
    method Put(x: Slot) returns (err: bool)
      requires txbuff.Length == pool && Shape(View().ring)
      modifies this`wr, this`free, this`accepted, txbuff, freePort, stopped
      ensures View() == Submitted(old(View()), x) && err == (old(free) == 0)
    {
      err := free == 0;
      if !err {
        ghost var r := View().ring;
        txbuff[wr] := x;
        wr := (wr + 1) % pool;
        free := free - 1;
        freePort[x.iface] := freePort[x.iface] - 1;
        if freePort[x.iface] == 0 {
          stopped[x.iface] := true;
        }
        accepted := accepted + [x];
        EnqueueWrites(r, x);
      }
    }

    /** Starts the transfer of the oldest packet unless one is under way. */
    method Send() returns (err: bool)
      requires txbuff.Length == pool && Shape(View().ring)
      modifies this`dmaTxInProgress, this`dma, this`sent
      ensures View() == Started(old(View())) && (!err <==> sent != old(sent))
    {
      err := true;
      dmaTxInProgress := dmaTxInProgress + 1;
      if dmaTxInProgress != 1 {
        dmaTxInProgress := dmaTxInProgress - 1;
      } else if free == pool {
        dmaTxInProgress := dmaTxInProgress - 1;
      } else {
        var rdIface := txbuff[rd].iface;
        if rdIface !in canWrite {
          dmaTxInProgress := dmaTxInProgress - 1;
        } else {
          var skb := txbuff[rd].skb;
          dma := Busy(Slot(skb, rdIface));
          sent := sent + [Slot(skb, rdIface)];
          err := false;
        }
      }
    }

    /** The kernel's entry point. */
    method Tx(x: Slot) returns (err: bool, ghost steps: seq<Action>)
      requires Valid()
      modifies this, txbuff, freePort, stopped
      ensures Valid() && Run(old(View()), steps, View())
      ensures err == (old(free) == 0)
      ensures accepted == if err then old(accepted) else old(accepted) + [x]
      ensures done == old(done) && freed == old(freed) && canWrite == old(canWrite)
      ensures if !err && old(dma).Idle? && accepted[done].iface in canWrite
              then dma == Busy(accepted[done]) && sent == old(sent) + [accepted[done]]
              else dma == old(dma) && sent == old(sent)
      ensures freePort[..] == (if err then old(freePort[..]) else old(freePort[..])[x.iface := old(freePort[..])[x.iface] - 1])
      ensures stopped[..] == if !err && freePort[x.iface] == 0 then old(stopped[..])[x.iface := true] else old(stopped[..])
    {
      ghost var s := View();
      hide Inv, Run, Submitted, Started, Writes, SubmitSteps, SendSteps;
      InvShape(s);
      SubmitRuns(s, x);
      SubmittedFacts(s, x);
      err := Put(x);
      ghost var m := View();
      steps := SubmitSteps(s, x);
      if !err {
        RunKeeps(s, steps, m);
        InvShape(m);
        SendRuns(m);
        StartedFacts(m);
        var _ := Send();
        RunJoin(s, steps, m, SendSteps(m), View());
        steps := steps + SendSteps(m);
      }
      RunKeeps(s, steps, View());
      assert s.ring.port == old(freePort[..]) && View().ring.port == freePort[..] == m.ring.port;
    }

    /** Frees the head and its buffer, takes the transfer off the counter, and wakes the port's queue. */
    method FinishHead()
      requires txbuff.Length == pool && Shape(View().ring)
      modifies this`rd, this`free, this`dmaTxInProgress, this`dma, this`done, this`freed, freePort, stopped
      ensures View() == Completed(old(View()))
    {
      hide Finished, Taking;
      ghost var r := View().ring;
      var i := txbuff[rd].iface;
      freed := freed + [txbuff[rd].skb];
      rd := (rd + 1) % pool;
      free := free + 1;
      freePort[i] := freePort[i] + 1;
      dmaTxInProgress := dmaTxInProgress - 1;
      if freePort[i] == 1 {
        stopped[i] := false;
      }
      dma, done := Idle, done + 1;
      FinishWrites(r);
    }

    /** The handler's work when a transfer has completed: take the packet off, and send on. */
    method TxComplete() returns (ghost steps: seq<Action>)
      requires Valid() && dma.Busy?
      modifies this, freePort, stopped
      ensures Valid() && Run(old(View()), steps, View())
      ensures done == old(done) + 1 && accepted == old(accepted)
      ensures freed == old(freed) + [old(accepted)[old(done)].skb] && canWrite == old(canWrite)
      ensures if done < |accepted| && accepted[done].iface in canWrite
              then dma == Busy(accepted[done]) && sent == old(sent) + [accepted[done]]
              else dma == Idle && sent == old(sent)
      ensures var i := accepted[old(done)].iface;
              && freePort[..] == old(freePort[..])[i := old(freePort[..])[i] + 1]
              && stopped[..] == if freePort[i] == 1 then old(stopped[..])[i := false] else old(stopped[..])
    {
      ghost var s := View();
      hide Inv, Run, CompleteSteps;
      InvShape(s);
      steps := [];
      if dmaTxInProgress != 0 {
        TakeOff();
        steps := SendOn(s, CompleteSteps());
      }
    }

    /** The handler's work up to the wake-up of the port's queue. */
    method TakeOff()
      requires Valid() && dma.Busy?
      modifies this`rd, this`free, this`dmaTxInProgress, this`dma, this`done, this`freed, freePort, stopped
      ensures Valid() && Run(old(View()), CompleteSteps(), View())
      ensures done == old(done) + 1 <= |accepted| && dma == Idle && freed == old(freed) + [accepted[old(done)].skb]
      ensures var i := accepted[old(done)].iface;
              && freePort[..] == old(freePort[..])[i := old(freePort[..])[i] + 1]
              && stopped[..] == if freePort[i] == 1 then old(stopped[..])[i := false] else old(stopped[..])
    {
      hide Inv, Run, Completed, CompleteSteps;
      ghost var s := View();
      CompletionRuns(s);
      FinishHead();
      assert s.ring.port == old(freePort[..]) && View().ring.port == freePort[..];
    }

    /** Calls the send function if there are packets left; `before` is the run so far. */
    method SendOn(ghost s: State, ghost before: seq<Action>) returns (ghost steps: seq<Action>)
      requires Valid() && Inv(s) && Run(s, before, View())
      modifies this`dmaTxInProgress, this`dma, this`sent
      ensures Valid() && Run(s, steps, View())
      ensures if old(dma).Idle? && done < |accepted| && accepted[done].iface in canWrite
              then dma == Busy(accepted[done]) && sent == old(sent) + [accepted[done]]
              else dma == old(dma) && sent == old(sent)
    {
      hide Inv, Run, Started, Holds, Adding, Taking, SendSteps;
      ghost var m := View();
      InvShape(m);
      steps := before;
      if free != pool {
        SendRuns(m);
        StartedFacts(m);
        var _ := Send();
        RunJoin(s, before, m, SendSteps(m), View());
        steps := before + SendSteps(m);
      } else {
        NothingLeft(m);
      }
      RunKeeps(s, steps, View());
    }

    /** The release drain: frees every packet still in the ring. */
    method Drain()
      requires Valid()
      modifies this`rd, this`free, this`freed, this`dmaTxInProgress
      ensures Shape(old(View()).ring) && View().ring == Drained(old(View()).ring)
      ensures freed == Skbs(accepted) && free == pool && dmaTxInProgress == 0
    {
      hide Inv, Holds, Skbs;
      ghost var r := View().ring;
      ghost var before := freed;
      DrainAccounts(View());
      while free < pool
        invariant txbuff.Length == pool && Shape(View().ring) && free <= pool
        invariant Drained(View().ring) == Drained(r)
        invariant freed + DrainedSkbs(View().ring) == before + DrainedSkbs(r)
        decreases pool - free
      {
        ghost var q := View().ring;
        DrainUnfolds(q);
        freed := freed + [txbuff[rd].skb];
        rd := (rd + 1) % pool;
        free := free + 1;
        assert View().ring == GiveFree(MoveRd(q));
      }
      dmaTxInProgress := 0;
    }
  }

  lemma {:induction false} DrainAccounts(s: State)
    requires Inv(s) && s.lock.Open? && s.irq.Quiet?
    ensures Shape(s.ring) && s.ring.free <= |s.ring.slots|
    ensures s.freed + DrainedSkbs(s.ring) == Skbs(s.accepted)
  {
    RingRefinesQueue(s.ring, s.accepted, s.done);
    DrainFreesAll(s.ring, s.accepted, s.done);
    hide Drained, DrainedSkbs, Contents;
  }

  lemma {:induction false} DrainUnfolds(r: Ring)
    requires Shape(r) && r.free < |r.slots|
    ensures Shape(GiveFree(MoveRd(r)))
    ensures Drained(r) == Drained(GiveFree(MoveRd(r)))
    ensures DrainedSkbs(r) == [r.slots[r.rd].skb] + DrainedSkbs(GiveFree(MoveRd(r)))
  {
  }

  lemma {:induction false} InvShape(s: State)
    requires Inv(s)
    ensures Shape(s.ring) && s.counter >= 0 && s.done <= |s.accepted| && (s.dma.Busy? ==> s.counter > 0 && s.done < |s.accepted|)
  {
  }

  /** What queueing changes. */
  lemma {:induction false} SubmittedFacts(s: State, x: Slot)
    requires Shape(s.ring)
    ensures var r := Submitted(s, x);
            if s.ring.free == 0 then r == s
            else
              && r == s.(ring := r.ring, accepted := s.accepted + [x]) && Shape(r.ring)
              && r.ring.port == s.ring.port[x.iface := s.ring.port[x.iface] - 1]
              && r.ring.stopped == if s.ring.port[x.iface] == 1 then s.ring.stopped[x.iface := true] else s.ring.stopped
  {
    EnqueueWrites(s.ring, x);
  }

  /** What the send function changes, in terms of the packets accepted. */
  lemma {:induction false} StartedFacts(s: State)
    requires Inv(s) && s.lock.Open? && s.irq.Quiet? && s.senders == map[]
    ensures Shape(s.ring)
    ensures var r := Started(s);
            if s.dma.Idle? && s.done < |s.accepted| && s.accepted[s.done].iface in s.canWrite
            then r == s.(counter := 1, dma := Busy(s.accepted[s.done]), sent := s.sent + [s.accepted[s.done]])
            else r == s
  {
    assert |s.senders| == 0;
    if s.done < |s.accepted| {
      HeadIsOldest(s);
    }
    hide Reading, InOrder;
  }

  lemma {:induction false} NothingLeft(s: State)
    requires Inv(s) && s.lock.Open? && s.ring.free == |s.ring.slots|
    ensures s.done == |s.accepted|
  {
  }

  /** What finishing the head changes: it is the oldest packet. */
  lemma {:induction false} CompletionRuns(s: State)
    requires Inv(s) && s.lock.Open? && s.irq.Quiet? && s.dma.Busy?
    ensures Shape(s.ring) && s.done < |s.accepted|
    ensures var r, x := Completed(s), s.accepted[s.done];
            && Inv(r) && Run(s, CompleteSteps(), r)
            && r == s.(ring := r.ring, dma := Idle, counter := s.counter - 1, done := s.done + 1,
                       freed := s.freed + [x.skb])
            && Shape(r.ring) && r.ring.port == s.ring.port[x.iface := s.ring.port[x.iface] + 1]
            && r.ring.stopped == if s.ring.port[x.iface] == 0 then s.ring.stopped[x.iface := false] else s.ring.stopped
  {
    hide Inv, Run, CompleteSteps, Finished;
    InvShape(s);
    BusyHead(s);
    CompleteRuns(s);
    RunKeeps(s, CompleteSteps(), Completed(s));
    FinishWrites(s.ring);
  }

  lemma {:induction false} BusyHead(s: State)
    requires Inv(s) && s.lock.Open? && s.dma.Busy?
    ensures Shape(s.ring) && s.done < |s.accepted| && Head(s) == s.accepted[s.done]
  {
    HeadIsOldest(s);
  }
}
