/**
 The register proxy: requests of a fixed size travel over a byte stream that may be cut
 anywhere and interrupted, a server answers each, and a client's accesses act as if made
 on the registers directly.
 */
module RegProxy {
  import opened Words

  const WRITE_REQ: Byte := 0
  const READ_REQ: Byte := 1
  const CHECK_REQ: Byte := 2
  const OPEN_REQ: Byte := 3
  const CLOSE_REQ: Byte := 4
  const FAILED: Byte := 0xFF
  const NO_DATA: Uint32 := 0xBADD_D065

  /** The request structure takes 16 bytes, with 2 and 3 bytes of padding. */
  const SIZE := 16

  datatype Request = Request(kind: Byte, device: Byte, gap: seq<Byte>, address: Uint32, data: Uint32,
                             error: Byte, tail: seq<Byte>)

  type Regs = map<Uint32, Uint32>

  predicate Padded(q: Request) {
    |q.gap| == 2 && |q.tail| == 3
  }

  function Encode(q: Request): (b: seq<Byte>)
    requires Padded(q)
    ensures |b| == SIZE
  {
    [q.kind, q.device] + q.gap + Unpack(q.address, true) + Unpack(q.data, true) + [q.error] + q.tail
  }

  function Decode(b: seq<Byte>): (q: Request)
    requires |b| == SIZE
    ensures Padded(q)
  {
    Request(b[0], b[1], b[2..4], Pack(b[4..8], true), Pack(b[8..12], true), b[12], b[13..])
  }

  lemma {:induction false} DecodeEncode(q: Request)
    requires Padded(q)
    ensures Decode(Encode(q)) == q
    ensures var b := Encode(q);
            && b[0] == q.kind && b[1] == q.device && b[12] == q.error && b[2..4] == q.gap && b[13..] == q.tail
            && forall k: nat {:trigger Place(k)} :: k < 4 ==>
                 b[4 + k] == q.address / Place(k) % 0x100 && b[8 + k] == q.data / Place(k) % 0x100
  {
    forall k: nat | k < 4
      ensures Unpack(q.address, true)[k] == q.address / Place(k) % 0x100
      ensures Unpack(q.data, true)[k] == q.data / Place(k) % 0x100
    {
      UnpackDigits(q.address, true, k);
      UnpackDigits(q.data, true, k);
    }
    PackUnpack(q.address, true);
    PackUnpack(q.data, true);
    var b := Encode(q);
    hide Pack, Unpack, Place;
    assert b[2..4] == q.gap && b[4..8] == Unpack(q.address, true) && b[8..12] == Unpack(q.data, true);
    assert b[13..] == q.tail;
  }

  // ----- what the server does with one request, and with a stream of them

  function Peek(r: Regs, a: Uint32): Uint32 {
    if a in r then r[a] else 0
  }

  datatype Answer = Answer(reply: Request, devs: seq<Regs>, stop: bool)

  function Handled(q: Request, devs: seq<Regs>): (a: Answer)
    requires Padded(q)
    ensures Padded(a.reply) && |a.devs| == |devs|
    ensures a.stop ==> q.kind == CLOSE_REQ && a.devs == devs
  {
    if q.device < |devs| then
      var d := devs[q.device];
      if q.kind == READ_REQ then Answer(q.(data := Peek(d, q.address)), devs, false)
      else if q.kind == WRITE_REQ then Answer(q, devs[q.device := d[q.address := q.data]], false)
      else if q.kind == CHECK_REQ || q.kind == OPEN_REQ then Answer(q.(data := 1), devs, false)
      else if q.kind == CLOSE_REQ then Answer(q, devs, true)
      else Answer(q.(error := FAILED), devs, false)
    else if q.kind == CHECK_REQ then Answer(q.(data := 0), devs, false)
    else Answer(q.(error := FAILED), devs, false)
  }

  /**
   What a request may expect: its reply differs from it in data and error alone. A read gets
   the register, a write changes it and nothing else, check and open say 1; a device that is
   not there answers a check with 0, and anything else, like an unknown kind, fails.
   */
  ghost predicate Effect(q: Request, before: seq<Regs>, r: Request, after: seq<Regs>) {
    && r == q.(data := r.data, error := r.error) && |after| == |before|
    && if q.device >= |before| then
         after == before && (if q.kind == 2 then r.data == 0 && r.error == q.error else r.data == q.data && r.error == 0xFF)
       else if q.kind == 0 then
         && r == q && (forall d :: 0 <= d < |before| && d != q.device ==> after[d] == before[d])
         && after[q.device].Keys == before[q.device].Keys + {q.address} && after[q.device][q.address] == q.data
         && forall a :: a in before[q.device] && a != q.address ==> after[q.device][a] == before[q.device][a]
       else
         && after == before
         && (q.kind == 1 ==> r.error == q.error && r.data == if q.address in before[q.device] then before[q.device][q.address] else 0)
         && (q.kind == 2 || q.kind == 3 ==> r.data == 1 && r.error == q.error)
         && (q.kind == 4 ==> r == q)
         && (q.kind > 4 ==> r.data == q.data && r.error == 0xFF)
  }

  predicate Closes(q: Request, devices: nat) {
    q.kind == 4 && q.device < devices
  }

  lemma {:induction false} HandledEffect(q: Request, devs: seq<Regs>)
    requires Padded(q)
    ensures var a := Handled(q, devs);
            Effect(q, devs, a.reply, a.devs) && (a.stop <==> Closes(q, |devs|))
  {
  }

  /** Requests and replies one by one, the devices changing as they go, up to the first close. */
  ghost predicate Dialogue(qs: seq<Request>, rs: seq<Request>, states: seq<seq<Regs>>) {
    && |states| == |rs| + 1 && |rs| <= |qs|
    && (forall i :: 0 <= i < |rs| ==> Effect(qs[i], states[i], rs[i], states[i + 1]))
    && (forall i :: 0 <= i < |rs| - 1 ==> !Closes(qs[i], |states[0]|))
    && (|rs| < |qs| ==> rs != [] && Closes(qs[|rs| - 1], |states[0]|))
  }

  lemma {:induction false} AnswersAreDialogue(qs: seq<Request>, devs: seq<Regs>) returns (states: seq<seq<Regs>>)
    requires forall i :: 0 <= i < |qs| ==> Padded(qs[i])
    ensures Dialogue(qs, Answers(qs, devs).0, states)
    ensures states[0] == devs && states[|states| - 1] == Answers(qs, devs).1
    decreases |qs|
  {
    states := [devs];
    if qs != [] {
      var a := Handled(qs[0], devs);
      HandledEffect(qs[0], devs);
      hide Handled, Effect, Closes;
      if a.stop {
        states := [devs, devs];
      } else {
        var rest := AnswersAreDialogue(qs[1..], a.devs);
        var rs := Answers(qs[1..], a.devs).0;
        states := [devs] + rest;
        DialogueCons(qs[0], qs[1..], a.reply, rs, devs, rest);
        assert qs == [qs[0]] + qs[1..];
      }
    }
  }

  lemma {:induction false} DialogueCons(q: Request, qs: seq<Request>, r: Request, rs: seq<Request>, devs: seq<Regs>,
      states: seq<seq<Regs>>)
    requires Dialogue(qs, rs, states) && Effect(q, devs, r, states[0]) && |states[0]| == |devs| && !Closes(q, |devs|)
    ensures Dialogue([q] + qs, [r] + rs, [devs] + states)
  {
    hide Effect, Closes;
    var xs, ys, zs := [q] + qs, [r] + rs, [devs] + states;
    forall i | 0 <= i < |ys|
      ensures Effect(xs[i], zs[i], ys[i], zs[i + 1])
    {
      assert i > 0 ==> xs[i] == qs[i - 1] && ys[i] == rs[i - 1] && zs[i] == states[i - 1];
    }
    forall i | 0 <= i < |ys| - 1
      ensures !Closes(xs[i], |zs[0]|)
    {
      assert i > 0 ==> xs[i] == qs[i - 1];
    }
  }

  /** What the server has written and done when it returns, and what it has left unread. */
  datatype Outcome = Outcome(out: seq<Byte>, devs: seq<Regs>, rest: seq<Byte>, status: int)

  /** Serving a stream: whole requests one by one until a close or the end of the stream. */
  function Served(b: seq<Byte>, devs: seq<Regs>): (o: Outcome)
    ensures |o.devs| == |devs|
    decreases |b|
  {
    if |b| < SIZE then Outcome([], devs, [], if b == [] then 0 else -1)
    else
      var a := Handled(Decode(b[..SIZE]), devs);
      if a.stop then Outcome(Encode(a.reply), devs, b[SIZE..], 0)
      else
        var o := Served(b[SIZE..], a.devs);
        o.(out := Encode(a.reply) + o.out)
  }

  function EncodeAll(qs: seq<Request>): seq<Byte>
    requires forall i :: 0 <= i < |qs| ==> Padded(qs[i])
  {
    if qs == [] then [] else Encode(qs[0]) + EncodeAll(qs[1..])
  }

  /** The answers to a list of requests, up to and including that to a close. */
  function Answers(qs: seq<Request>, devs: seq<Regs>): (r: (seq<Request>, seq<Regs>))
    requires forall i :: 0 <= i < |qs| ==> Padded(qs[i])
    ensures forall i :: 0 <= i < |r.0| ==> Padded(r.0[i])
  {
    if qs == [] then ([], devs)
    else
      var a := Handled(qs[0], devs);
      if a.stop then ([a.reply], devs)
      else
        var r := Answers(qs[1..], a.devs);
        ([a.reply] + r.0, r.1)
  }

  /** A stream of encoded requests is answered request by request, one reply each, in order. */
  lemma {:induction false} ServesRequests(qs: seq<Request>, devs: seq<Regs>)
    requires forall i :: 0 <= i < |qs| ==> Padded(qs[i])
    ensures var o, r := Served(EncodeAll(qs), devs), Answers(qs, devs);
            o.out == EncodeAll(r.0) && o.devs == r.1 && o.status == 0
    ensures |Answers(qs, devs).0| == |qs| || (exists i :: 0 <= i < |qs| && qs[i].kind == CLOSE_REQ)
    decreases |qs|
  {
    if qs != [] {
      var b := EncodeAll(qs);
      assert b[..SIZE] == Encode(qs[0]) && b[SIZE..] == EncodeAll(qs[1..]);
      DecodeEncode(qs[0]);
      var a := Handled(qs[0], devs);
      hide Encode, Decode;
      if a.stop {
        assert EncodeAll([a.reply]) == Encode(a.reply) + EncodeAll([a.reply][1..]);
        assert qs[0].kind == CLOSE_REQ;
      } else {
        ServesRequests(qs[1..], a.devs);
        var r := Answers(qs[1..], a.devs);
        assert ([a.reply] + r.0)[1..] == r.0;
        if i :| 0 <= i < |qs[1..]| && qs[1..][i].kind == CLOSE_REQ {
          assert qs[i + 1].kind == CLOSE_REQ;
        }
      }
    }
  }

  /** Each reply is what its request may expect of the devices as they are by then. */
  lemma {:induction false} ServesDialogue(qs: seq<Request>, devs: seq<Regs>)
    returns (replies: seq<Request>, states: seq<seq<Regs>>)
    requires forall i :: 0 <= i < |qs| ==> Padded(qs[i])
    ensures Dialogue(qs, replies, states) && states[0] == devs
    ensures forall i :: 0 <= i < |replies| ==> Padded(replies[i])
    ensures var o := Served(EncodeAll(qs), devs);
            o.out == EncodeAll(replies) && o.devs == states[|states| - 1] && o.status == 0
  {
    hide *;
    replies := Answers(qs, devs).0;
    states := AnswersAreDialogue(qs, devs);
    DialogueNotEmpty(qs, replies, states);
    ServesRequests(qs, devs);
  }

  lemma {:induction false} DialogueNotEmpty(qs: seq<Request>, rs: seq<Request>, states: seq<seq<Regs>>)
    requires Dialogue(qs, rs, states)
    ensures |states| > 0
  {
  }

  // ----- the stream

  /** One direction of a connection; it may still interrupt reads and writes so many times. */
  class Pipe {
    var bytes: seq<Byte>
    var interrupts: nat

    constructor (bytes: seq<Byte>, interrupts: nat)
      ensures this.bytes == bytes && this.interrupts == interrupts
    {
      this.bytes, this.interrupts := bytes, interrupts;
    }

    /** Some of the bytes asked for, at least one unless the stream has ended; or -1 when interrupted. */
    method Read(n: nat) returns (got: int, data: seq<Byte>)
      requires n > 0
      modifies this
      ensures got == -1 || got == |data| <= n
      ensures got == -1 ==> data == [] && bytes == old(bytes) && interrupts < old(interrupts)
      ensures got != -1 ==> old(bytes) == data + bytes && interrupts == old(interrupts)
      ensures got == 0 ==> old(bytes) == []
    {
      data := [];
      if interrupts > 0 {
        if * {
          interrupts := interrupts - 1;
          return -1, [];
        }
      }
      if bytes == [] {
        return 0, [];
      }
      var k: nat :| 1 <= k <= n && k <= |bytes|;
      data := bytes[..k];
      bytes := bytes[k..];
      got := k;
    }

    /** Takes some of the bytes, at least one, or is interrupted. */
    method Write(data: seq<Byte>) returns (put: int)
      requires data != []
      modifies this
      ensures put == -1 || 1 <= put <= |data|
      ensures put == -1 ==> bytes == old(bytes) && interrupts < old(interrupts)
      ensures put != -1 ==> bytes == old(bytes) + data[..put] && interrupts == old(interrupts)
    {
      if interrupts > 0 {
        if * {
          interrupts := interrupts - 1;
          return -1;
        }
      }
      var k: nat :| 1 <= k <= |data|;
      bytes := bytes + data[..k];
      put := k;
    }
  }

  /** Reads len bytes however they arrive, fewer only when the stream ends. */
  method Readn(pipe: Pipe, buf: array<Byte>, len: nat) returns (n: nat)
    requires len <= buf.Length
    modifies pipe, buf
    ensures n == if |old(pipe.bytes)| < len then |old(pipe.bytes)| else len
    ensures buf[..n] == old(pipe.bytes)[..n] && pipe.bytes == old(pipe.bytes)[n..]
  {
    ghost var all := pipe.bytes;
    var nleft: nat := len;
    var ptr: nat := 0;
    while nleft > 0
      invariant ptr + nleft == len && ptr <= |all|
      invariant buf[..ptr] == all[..ptr] && pipe.bytes == all[ptr..]
      decreases nleft, pipe.interrupts
    {
      var nread, data := pipe.Read(nleft);
      if nread < 0 {
        nread := 0;
      } else if nread == 0 {
        break;
      }
      forall i | 0 <= i < nread {
        buf[ptr + i] := data[i];
      }
      nleft := nleft - nread;
      ptr := ptr + nread;
    }
    n := len - nleft;
  }

  /** Writes the bytes however they are taken. */
  method Writen(pipe: Pipe, buf: array<Byte>, len: nat)
    requires len <= buf.Length
    modifies pipe
    ensures pipe.bytes == old(pipe.bytes) + buf[..len]
  {
    var nleft: nat := len;
    var ptr: nat := 0;
    while nleft > 0
      invariant ptr + nleft == len && pipe.bytes == old(pipe.bytes) + buf[..ptr]
      decreases nleft, pipe.interrupts
    {
      var nwritten := pipe.Write(buf[ptr..ptr + nleft]);
      if nwritten < 0 {
        nwritten := 0;
      }
      assert buf[..ptr] + buf[ptr..ptr + nleft][..nwritten] == buf[..ptr + nwritten];
      nleft := nleft - nwritten;
      ptr := ptr + nwritten;
    }
  }

  method StoreRequest(q: Request, buf: array<Byte>)
    requires Padded(q) && buf.Length == SIZE
    modifies buf
    ensures buf[..] == Encode(q)
  {
    var b := Encode(q);
    forall i | 0 <= i < SIZE {
      buf[i] := b[i];
    }
  }

  // ----- the server

  /** Executes the request in the buffer and turns it into the reply. */
  method Execute(req: array<Byte>, devices: array<Regs>) returns (stop: bool)
    requires req.Length == SIZE
    modifies req, devices
    ensures var a := Handled(Decode(old(req[..])), old(devices[..]));
            req[..] == Encode(a.reply) && devices[..] == a.devs && stop == a.stop
  {
    var q := Decode(req[..]);
    stop := false;
    if q.device < devices.Length {
      if q.kind == READ_REQ {
        q := q.(data := Peek(devices[q.device], q.address));
      } else if q.kind == WRITE_REQ {
        devices[q.device] := devices[q.device][q.address := q.data];
      } else if q.kind == CHECK_REQ {
        q := q.(data := 1);
      } else if q.kind == OPEN_REQ {
        q := q.(data := 1);
      } else if q.kind == CLOSE_REQ {
        stop := true;
      } else {
        q := q.(error := FAILED);
      }
    } else {
      if q.kind == CHECK_REQ {
        q := q.(data := 0);
      } else {
        q := q.(error := FAILED);
      }
    }
    StoreRequest(q, req);
  }

  /** Executes the request in the buffer and sends the reply. */
  method Reply(req: array<Byte>, down: Pipe, devices: array<Regs>) returns (stop: bool)
    requires req.Length == SIZE
    modifies req, down, devices
    ensures var a := Handled(Decode(old(req[..])), old(devices[..]));
            down.bytes == old(down.bytes) + Encode(a.reply) && devices[..] == a.devs && stop == a.stop
  {
    hide Encode, Decode, Handled;
    stop := Execute(req, devices);
    Writen(down, req, SIZE);
    assert req[..SIZE] == req[..];
  }

  /** With `left` still to come, `written` sent and these devices, the whole outcome is still to be had. */
  ghost predicate Serving(whole: Outcome, before: seq<Byte>, left: seq<Byte>, devs: seq<Regs>, written: seq<Byte>) {
    var o := Served(left, devs);
    && written + o.out == before + whole.out && o.devs == whole.devs
    && o.rest == whole.rest && o.status == whole.status
  }

  /** One request served. */
  lemma {:induction false} ServingStep(whole: Outcome, before: seq<Byte>, left: seq<Byte>, devs: seq<Regs>,
      written: seq<Byte>)
    requires Serving(whole, before, left, devs, written) && |left| >= SIZE
    ensures var a := Handled(Decode(left[..SIZE]), devs);
            var now := written + Encode(a.reply);
            if a.stop then
              now == before + whole.out && a.devs == whole.devs && left[SIZE..] == whole.rest && whole.status == 0
            else Serving(whole, before, left[SIZE..], a.devs, now)
  {
    var a := Handled(Decode(left[..SIZE]), devs);
    if !a.stop {
      var rest := Served(left[SIZE..], a.devs).out;
      assert written + (Encode(a.reply) + rest) == (written + Encode(a.reply)) + rest;
    }
    hide Encode, Decode, Handled;
  }

  lemma {:induction false} ServingEnds(whole: Outcome, before: seq<Byte>, left: seq<Byte>, devs: seq<Regs>,
      written: seq<Byte>)
    requires Serving(whole, before, left, devs, written) && |left| < SIZE
    ensures written == before + whole.out && devs == whole.devs && whole.rest == []
    ensures whole.status == if left == [] then 0 else -1
  {
  }

  /** Answers requests until a close or the end of the stream. */
  method ParseRequest(up: Pipe, down: Pipe, devices: array<Regs>) returns (status: int)
    requires up != down
    modifies up, down, devices
    ensures var o := Served(old(up.bytes), old(devices[..]));
            && down.bytes == old(down.bytes) + o.out && devices[..] == o.devs
            && up.bytes == o.rest && status == o.status
  {
    var req := new Byte[SIZE];
    ghost var left, before := up.bytes, down.bytes;
    ghost var whole := Served(left, devices[..]);
    var nread: nat := Readn(up, req, SIZE);
    hide Encode, Decode, Handled, Served;
    assert Serving(whole, before, left, devices[..], before);
    hide Serving;
    while nread == SIZE
      invariant nread == (if |left| < SIZE then |left| else SIZE)
      invariant req[..nread] == left[..nread] && up.bytes == left[nread..]
      invariant Serving(whole, before, left, devices[..], down.bytes)
      decreases |left|
    {
      assert req[..] == left[..SIZE];
      ServingStep(whole, before, left, devices[..], down.bytes);
      var stop := Reply(req, down, devices);
      if stop {
        return 0;
      }
      left := left[SIZE..];
      nread := Readn(up, req, SIZE);
    }
    ServingEnds(whole, before, left, devices[..], down.bytes);
    status := if nread == 0 then 0 else -1;
  }

  // ----- a client and the server

  /** Both directions of a connection, and the devices behind the server. */
  class Session {
    const up: Pipe
    const down: Pipe
    const devices: array<Regs>

    /** Nothing is on its way. */
    predicate Idle()
      reads this, up, down
    {
      up != down && up.bytes == [] && down.bytes == []
    }

    constructor (up: Pipe, down: Pipe, devices: array<Regs>)
      requires up != down && up.bytes == [] && down.bytes == []
      ensures Idle() && this.up == up && this.down == down && this.devices == devices
    {
      this.up, this.down, this.devices := up, down, devices;
    }

    /** The server's turn: one request, one reply. */
    method ServeOne()
      requires up != down && |up.bytes| >= SIZE
      modifies up, down, devices
      ensures var a := Handled(Decode(old(up.bytes)[..SIZE]), old(devices[..]));
              && up.bytes == old(up.bytes)[SIZE..] && down.bytes == old(down.bytes) + Encode(a.reply)
              && devices[..] == a.devs
    {
      hide Encode, Decode, Handled;
      var req := new Byte[SIZE];
      var n := Readn(up, req, SIZE);
      assert req[..] == req[..SIZE];
      var _ := Reply(req, down, devices);
    }

    /** Sends a request and waits for the reply, which replaces it. */
    method SendRequest(q: Request) returns (r: Request)
      requires Idle() && Padded(q)
      modifies up, down, devices
      ensures Idle() && Padded(r)
      ensures var a := Handled(q, old(devices[..])); r == a.reply && devices[..] == a.devs
      ensures Effect(q, old(devices[..]), r, devices[..])
    {
      DecodeEncode(q);
      ghost var a := Handled(q, devices[..]);
      DecodeEncode(a.reply);
      HandledEffect(q, devices[..]);
      hide Encode, Decode, Handled, Effect;
      var buf := new Byte[SIZE];
      StoreRequest(q, buf);
      Writen(up, buf, SIZE);
      assert up.bytes == Encode(q) && Encode(q)[..SIZE] == Encode(q) && Encode(q)[SIZE..] == [];
      ServeOne();
      assert down.bytes == Encode(a.reply);
      var n := Readn(down, buf, SIZE);
      assert buf[..] == buf[..n] == Encode(a.reply);
      r := Decode(buf[..]);
    }

    /** Whether there is a device of this number, of which the protocol keeps eight bits. */
    method CheckIface(device: nat) returns (found: bool)
      requires Idle()
      modifies up, down, devices
      ensures Idle() && devices[..] == old(devices[..]) && found == (device % 0x100 < devices.Length)
    {
      var r := SendRequest(Request(CHECK_REQ, device % 0x100, [0, 0], 0, 0, 0, [0, 0, 0]));
      found := r.error == 0 && r.data == 1;
    }

    method OpenDescriptor(fd: nat) returns (handle: nat, error: Byte)
      requires Idle()
      modifies up, down, devices
      ensures Idle() && devices[..] == old(devices[..])
      ensures if fd % 0x100 < devices.Length then error == 0 && handle == fd % 0x100 else error == 0xFF && handle == fd
    {
      var r := SendRequest(Request(OPEN_REQ, fd % 0x100, [0, 0], 0, 0, 0, [0, 0, 0]));
      handle, error := fd, r.error;
      if error == 0 {
        handle := r.device;
      }
    }

    /** Reads a register of the device with this descriptor, of which the protocol keeps eight bits. */
    method ReadReg(fd: nat, reg: Uint32) returns (val: Uint32, error: Byte)
      requires Idle()
      modifies up, down, devices
      ensures Idle() && devices[..] == old(devices[..])
      ensures var d := fd % 0x100;
              if d < devices.Length then
                val == Peek(devices[d], reg) && error == 0 && (reg in devices[d] ==> val == devices[d][reg])
              else val == NO_DATA && error == FAILED
    {
      var r := SendRequest(Request(READ_REQ, fd % 0x100, [0, 0], reg, NO_DATA, 0, [0, 0, 0]));
      val, error := r.data, r.error;
    }

    method WriteReg(fd: nat, reg: Uint32, val: Uint32) returns (error: Byte)
      requires Idle()
      modifies up, down, devices
      ensures Idle()
      ensures var d := fd % 0x100;
              if d < devices.Length then
                devices[..] == old(devices[..])[d := old(devices[d])[reg := val]] && error == 0
              else devices[..] == old(devices[..]) && error == FAILED
    {
      var r := SendRequest(Request(WRITE_REQ, fd % 0x100, [0, 0], reg, val, 0, [0, 0, 0]));
      error := r.error;
    }
  }
}
