/**
 Bitfile download: the header is skipped, and the payload goes to the card in blocks, as
 32-bit words, to one data register or to consecutive addresses of a memory.
 */
module Download {
  import opened Words

  const READ_BUFFER_SIZE := 4096
  const PROGRAMMING_DATA: Uint32 := 0x100
  const PROGRAM_RAM_BASE: Uint32 := 0x0048_0000

  // ----- words and bytes

  function Zeros(n: nat): (z: seq<Byte>)
    ensures |z| == n && forall i :: 0 <= i < n ==> z[i] == 0
  {
    seq(n, _ => 0)
  }

  /** How many zero bytes fill up the last word. */
  function Fill(n: nat): nat {
    (4 - n % 4) % 4
  }

  /** The words of a byte string; a last word that is not full is filled with zeros. */
  function WordsOf(b: seq<Byte>, little: bool): seq<Uint32> {
    if b == [] then []
    else if |b| < 4 then [Pack(b + Zeros(4 - |b|), little)]
    else [Pack(b[..4], little)] + WordsOf(b[4..], little)
  }

  function BytesOf(ws: seq<Uint32>, little: bool): seq<Byte> {
    if ws == [] then [] else Unpack(ws[0], little) + BytesOf(ws[1..], little)
  }

  lemma {:induction false} BytesCons(w: Uint32, ws: seq<Uint32>, little: bool)
    ensures BytesOf([w] + ws, little) == Unpack(w, little) + BytesOf(ws, little)
  {
    assert ([w] + ws)[1..] == ws;
  }

  lemma {:induction false} FirstFour(b: seq<Byte>, z: seq<Byte>)
    requires |b| >= 4
    ensures b[..4] + (b[4..] + z) == b + z && Fill(|b|) == Fill(|b[4..]|)
  {
  }

  lemma {:induction false} ShortWord(b: seq<Byte>, little: bool)
    requires 0 < |b| < 4
    ensures BytesOf(WordsOf(b, little), little) == b + Zeros(Fill(|b|))
  {
    var last := b + Zeros(4 - |b|);
    UnpackPack(last, little);
    BytesCons(Pack(last, little), [], little);
    hide Pack, Unpack;
    assert [Pack(last, little)] + [] == [Pack(last, little)];
  }

  /** Unpacking the words gives back the bytes and the zeros that filled them up. */
  lemma {:induction false} WordsRoundTrip(b: seq<Byte>, little: bool)
    ensures BytesOf(WordsOf(b, little), little) == b + Zeros(Fill(|b|))
    decreases |b|
  {
    if b == [] {
    } else if |b| < 4 {
      ShortWord(b, little);
    } else {
      FirstFour(b, Zeros(Fill(|b|)));
      hide *;
      WordsStep(b, little);
      BytesCons(Pack(b[..4], little), WordsOf(b[4..], little), little);
      UnpackPack(b[..4], little);
      WordsRoundTrip(b[4..], little);
    }
  }

  /** What byte i of a download is in the words sent: the words are its bytes by fours, least significant first or last. */
  lemma {:induction false} WordsHaveBytes(b: seq<Byte>, little: bool, i: nat)
    requires i < |b|
    ensures |WordsOf(b, little)| == (|b| + 3) / 4
    ensures WordsOf(b, little)[i / 4] / Place(if little then i % 4 else 3 - i % 4) % 0x100 == b[i]
    decreases |b|
  {
    hide Pack, Unpack, Place;
    if |b| <= 4 {
      var last := b + Zeros(4 - |b|);
      OneWord(b, little);
      UnpackPack(last, little);
      UnpackDigits(Pack(last, little), little, if little then i else 3 - i);
    } else {
      WordsStep(b, little);
      if i < 4 {
        UnpackPack(b[..4], little);
        UnpackDigits(Pack(b[..4], little), little, if little then i else 3 - i);
        WordsHaveBytes(b[4..], little, 0);
      } else {
        WordsHaveBytes(b[4..], little, i - 4);
      }
    }
  }

  lemma {:induction false} OneWord(b: seq<Byte>, little: bool)
    requires 0 < |b| <= 4
    ensures WordsOf(b, little) == [Pack(b + Zeros(4 - |b|), little)]
  {
    if |b| == 4 {
      assert b[..4] == b == b + Zeros(0) && b[4..] == [];
      assert [Pack(b, little)] + WordsOf([], little) == [Pack(b, little)];
    }
  }

  lemma {:induction false} NoWords(little: bool)
    ensures WordsOf([], little) == []
  {
  }

  lemma {:induction false} WordsStep(b: seq<Byte>, little: bool)
    requires |b| >= 4
    ensures WordsOf(b, little) == [Pack(b[..4], little)] + WordsOf(b[4..], little)
  {
  }

  /** Cutting a download at a word boundary makes no difference. */
  lemma {:induction false} WordsJoin(a: seq<Byte>, b: seq<Byte>, little: bool)
    requires |a| % 4 == 0
    ensures WordsOf(a + b, little) == WordsOf(a, little) + WordsOf(b, little)
    decreases |a|
  {
    hide WordsOf, Pack;
    if a == [] {
      assert a + b == b;
      NoWords(little);
    } else {
      assert (a + b)[..4] == a[..4] && (a + b)[4..] == a[4..] + b;
      WordsStep(a + b, little);
      WordsStep(a, little);
      WordsJoin(a[4..], b, little);
    }
  }

  /** A block of the file behind the bytes already sent; only the last one is short. */
  ghost predicate Cursor(all: seq<Byte>, sent: nat, block: seq<Byte>, rest: seq<Byte>) {
    && sent <= |all| && all[sent..] == block + rest && |block| <= READ_BUFFER_SIZE
    && (|block| < READ_BUFFER_SIZE ==> rest == []) && (block != [] ==> sent % 4 == 0)
  }

  lemma {:induction false} CursorMoves(all: seq<Byte>, sent: nat, block: seq<Byte>, next: seq<Byte>, rest: seq<Byte>)
    requires block != [] && Cursor(all, sent, block, next + rest)
    requires |next| <= READ_BUFFER_SIZE && (|next| < READ_BUFFER_SIZE ==> rest == [])
    ensures Cursor(all, sent + |block|, next, rest)
  {
    assert all[sent + |block|..] == all[sent..][|block|..];
  }

  /** The words of a file up to the end of a block. */
  lemma {:induction false} BlockJoins(all: seq<Byte>, sent: nat, block: seq<Byte>, rest: seq<Byte>, little: bool)
    requires block != [] && Cursor(all, sent, block, rest)
    ensures sent + |block| <= |all|
    ensures WordsOf(all[..sent + |block|], little) == WordsOf(all[..sent], little) + WordsOf(block, little)
  {
    hide WordsOf;
    assert all == all[..sent] + all[sent..];
    assert all[..sent + |block|] == all[..sent] + block;
    WordsJoin(all[..sent], block, little);
  }

  lemma {:induction false} CursorEnds(all: seq<Byte>, sent: nat, rest: seq<Byte>)
    requires Cursor(all, sent, [], rest)
    ensures sent == |all| && all[..sent] == all
  {
  }

  // ----- the file

  /** One field of the header after its length: the field, and the letter that announces the next. */
  datatype Field = Field(text: seq<Byte>, tag: Byte)

  datatype Header = Header(preamble: seq<Byte>, gap: seq<Byte>, tag: Byte, design: Field, part: Field,
                           date: Field, time: Field, length: seq<Byte>)

  function Length(n: nat): seq<Byte>
    requires n < 0x1_0000
  {
    [n / 0x100, n % 0x100]
  }

  /** Every field fits the read buffer; a preamble length of 0xFFFF would mean there is no header. */
  predicate Fits(h: Header) {
    && |h.preamble| + 5 <= READ_BUFFER_SIZE && |h.gap| == 2 && |h.length| == 4
    && |h.design.text| + 3 <= READ_BUFFER_SIZE && |h.part.text| + 3 <= READ_BUFFER_SIZE
    && |h.date.text| + 3 <= READ_BUFFER_SIZE && |h.time.text| + 5 <= READ_BUFFER_SIZE
  }

  function Start(h: Header): seq<Byte>
    requires Fits(h)
  {
    h.preamble + h.gap + [h.tag] + Length(|h.design.text|)
  }

  function Middle(f: Field, next: Field): seq<Byte>
    requires |next.text| < 0x1_0000
  {
    f.text + [f.tag] + Length(|next.text|)
  }

  function HeaderBytes(h: Header): seq<Byte>
    requires Fits(h)
  {
    Length(|h.preamble|) + Start(h) + Middle(h.design, h.part) + Middle(h.part, h.date)
    + Middle(h.date, h.time) + h.time.text + [h.time.tag] + h.length
  }

  class File {
    const data: seq<Byte>
    var pos: nat

    constructor (data: seq<Byte>)
      ensures this.data == data && pos == 0
    {
      this.data, pos := data, 0;
    }

    ghost function Rest(): seq<Byte>
      reads this
      requires pos <= |data|
    {
      data[pos..]
    }

    /** Reads up to n bytes into the front of the buffer. */
    method Fread(buf: array<Byte>, n: nat) returns (got: nat)
      requires n <= buf.Length && pos <= |data|
      modifies this, buf
      ensures pos <= |data| && got == if |old(Rest())| < n then |old(Rest())| else n
      ensures buf[..got] == old(Rest())[..got] && buf[got..] == old(buf[got..])
      ensures Rest() == old(Rest())[got..]
    {
      got := if |data| - pos < n then |data| - pos else n;
      forall i | 0 <= i < got {
        buf[i] := data[pos + i];
      }
      pos := pos + got;
    }

    method Rewind()
      modifies this
      ensures pos == 0
    {
      pos := 0;
    }
  }

  /** A file with a header, or one that starts with the synchronisation bytes of a bare image. */
  ghost predicate Expected(data: seq<Byte>, h: Header, payload: seq<Byte>, bare: bool) {
    if bare then payload == data && (data == [] || (|data| >= 2 && data[0] == 0xFF && data[1] == 0xFF))
    else Fits(h) && data == HeaderBytes(h) + payload
  }

  /** Reads a piece of the header that ends in the length of the next field, and returns that length. */
  method ReadPiece(file: File, buf: array<Byte>, headerLen: nat, extra: nat, ghost piece: seq<Byte>,
      ghost next: nat, ghost rest: seq<Byte>) returns (nextLen: nat)
    requires buf.Length == READ_BUFFER_SIZE && file.pos <= |file.data|
    requires headerLen + extra + 2 == |piece| + 2 && |piece| + 2 <= READ_BUFFER_SIZE && next < 0x1_0000
    requires file.Rest() == piece + Length(next) + rest
    modifies file, buf
    ensures file.pos <= |file.data| && file.Rest() == rest && nextLen == next
  {
    var whole := headerLen + extra + 2;
    ghost var r := file.Rest();
    ghost var got := piece + Length(next);
    assert r[..whole] == got && r[whole..] == rest;
    var size := file.Fread(buf, whole);
    assert buf[..whole] == got;
    assert buf[headerLen + extra] == got[headerLen + extra] && buf[headerLen + extra + 1] == got[headerLen + extra + 1];
    nextLen := buf[headerLen + extra] as int * 0x100 + buf[headerLen + extra + 1];
  }

  /** What is left of the file from each field of the header on. */
  function FromTime(h: Header, payload: seq<Byte>): seq<Byte> {
    h.time.text + [h.time.tag] + h.length + payload
  }

  function FromDate(h: Header, payload: seq<Byte>): seq<Byte>
    requires Fits(h)
  {
    h.date.text + [h.date.tag] + Length(|h.time.text|) + FromTime(h, payload)
  }

  function FromPart(h: Header, payload: seq<Byte>): seq<Byte>
    requires Fits(h)
  {
    h.part.text + [h.part.tag] + Length(|h.date.text|) + FromDate(h, payload)
  }

  function FromDesign(h: Header, payload: seq<Byte>): seq<Byte>
    requires Fits(h)
  {
    h.design.text + [h.design.tag] + Length(|h.part.text|) + FromPart(h, payload)
  }

  function FromPreamble(h: Header, payload: seq<Byte>): seq<Byte>
    requires Fits(h)
  {
    (h.preamble + h.gap + [h.tag]) + Length(|h.design.text|) + FromDesign(h, payload)
  }

  lemma {:induction false} HeaderSplits(h: Header, payload: seq<Byte>)
    requires Fits(h)
    ensures HeaderBytes(h) + payload == Length(|h.preamble|) + FromPreamble(h, payload)
  {
    hide Length;
  }

  lemma {:induction false} FrontOf(p: seq<Byte>, rest: seq<Byte>)
    requires |p| == 2
    ensures (p + rest)[..2] == p && (p + rest)[2..] == rest && (p + rest)[0] == p[0] && (p + rest)[1] == p[1]
  {
  }

  lemma {:induction false} HeaderStarts(h: Header, payload: seq<Byte>)
    requires Fits(h)
    ensures var d := HeaderBytes(h) + payload;
            && |d| >= 2 && d[..2] == Length(|h.preamble|) && d[2..] == FromPreamble(h, payload)
            && d[0] as int * 0x100 + d[1] == |h.preamble| && (d[0] != 0xFF || d[1] != 0xFF)
  {
    HeaderSplits(h, payload);
    FrontOf(Length(|h.preamble|), FromPreamble(h, payload));
    hide HeaderBytes, FromPreamble;
  }

  /** Reads the fields of the header, each of which ends in the length of the next. */
  method SkipFields(file: File, buf: array<Byte>, preambleLen: nat, ghost h: Header, ghost payload: seq<Byte>)
    requires buf.Length == READ_BUFFER_SIZE && file.pos <= |file.data|
    requires Fits(h) && preambleLen == |h.preamble| && file.Rest() == FromPreamble(h, payload)
    modifies file, buf
    ensures file.pos <= |file.data| && file.Rest() == payload
  {
    hide Length;
    var len := ReadPiece(file, buf, preambleLen, 2 + 1, h.preamble + h.gap + [h.tag], |h.design.text|,
                         FromDesign(h, payload));
    len := ReadPiece(file, buf, len, 1, h.design.text + [h.design.tag], |h.part.text|, FromPart(h, payload));
    len := ReadPiece(file, buf, len, 1, h.part.text + [h.part.tag], |h.date.text|, FromDate(h, payload));
    len := ReadPiece(file, buf, len, 1, h.date.text + [h.date.tag], |h.time.text|, FromTime(h, payload));
    assert FromTime(h, payload)[len + 1 + 4..] == payload;
    var size := file.Fread(buf, len + 1 + 4);
  }

  /** What the first two bytes say of the file. */
  lemma {:induction false} PrefixTells(data: seq<Byte>, h: Header, payload: seq<Byte>, bare: bool)
    requires Expected(data, h, payload, bare)
    ensures bare ==> payload == data && (data == [] || (|data| >= 2 && data[0] == 0xFF && data[1] == 0xFF))
    ensures !bare ==> Fits(h) && |data| >= 2 && (data[0] != 0xFF || data[1] != 0xFF)
    ensures !bare ==> data[0] as int * 0x100 + data[1] == |h.preamble| && data[2..] == FromPreamble(h, payload)
  {
    if !bare {
      HeaderStarts(h, payload);
    }
    hide HeaderBytes, FromPreamble;
  }

  /** Leaves the file positioned at the payload. */
  method StripHeader(file: File, ghost h: Header, ghost payload: seq<Byte>, ghost bare: bool)
    requires file.pos == 0 && Expected(file.data, h, payload, bare)
    modifies file
    ensures file.pos <= |file.data| && file.Rest() == payload
  {
    hide HeaderBytes, Length, Fits, FromPreamble, Expected;
    var buf := new Byte[READ_BUFFER_SIZE];
    assert file.Rest() == file.data;
    PrefixTells(file.data, h, payload, bare);
    var size := file.Fread(buf, 2);
    assert size == 2 ==> buf[0] == buf[..2][0] && buf[1] == buf[..2][1];
    if size != 0 && (buf[0] != 0xFF || buf[1] != 0xFF) {
      SkipFields(file, buf, buf[0] as int * 0x100 + buf[1], h, payload);
    } else {
      file.Rewind();
      assert file.Rest() == file.data;
    }
  }

  /** Fills the buffer with the next block, which is short only at the end of the file. */
  method NextBlock(file: File, buf: array<Byte>) returns (size: nat)
    requires file.pos <= |file.data| && buf.Length == READ_BUFFER_SIZE
    modifies file, buf
    ensures file.pos <= |file.data| && size <= READ_BUFFER_SIZE
    ensures old(file.Rest()) == buf[..size] + file.Rest()
    ensures size < READ_BUFFER_SIZE ==> file.Rest() == []
  {
    size := file.Fread(buf, READ_BUFFER_SIZE);
  }

  // ----- the card

  datatype Write = Write(addr: Uint32, value: Uint32)

  function ValuesOf(ws: seq<Write>): (vs: seq<Uint32>)
    ensures |vs| == |ws| && forall i :: 0 <= i < |ws| ==> vs[i] == ws[i].value
  {
    seq(|ws|, i requires 0 <= i < |ws| => ws[i].value)
  }

  /** Where the writes go: to the data register, or to consecutive words of the memory. */
  ghost predicate Addressed(ws: seq<Write>, cpci: bool) {
    forall i :: 0 <= i < |ws| ==>
      ws[i].addr == if cpci then (PROGRAM_RAM_BASE + 4 * i) % 0x1_0000_0000 else PROGRAMMING_DATA
  }

  class Card {
    const cpci: bool
    var progAddr: Uint32
    var bytesSent: nat
    var log: seq<Write>

    constructor (cpci: bool)
      ensures Valid() && log == [] && bytesSent == 0 && this.cpci == cpci
    {
      this.cpci, progAddr, bytesSent, log := cpci, PROGRAM_RAM_BASE, 0, [];
    }

    ghost predicate Valid()
      reads this
    {
      && Addressed(log, cpci)
      && (cpci ==> progAddr == (PROGRAM_RAM_BASE + 4 * |log|) % 0x1_0000_0000)
      && (!cpci ==> progAddr == PROGRAM_RAM_BASE)
    }

    method WriteWord(w: Uint32)
      requires Valid()
      modifies this`log, this`progAddr
      ensures Valid() && ValuesOf(log) == ValuesOf(old(log)) + [w]
    {
      if cpci {
        log := log + [Write(progAddr, w)];
        progAddr := (progAddr + 4) % 0x1_0000_0000;
      } else {
        log := log + [Write(PROGRAMMING_DATA, w)];
      }
    }

    /** The next word of a block, of which at least one byte is left. */
    method NextWord(data: array<Byte>, at: nat, size: nat) returns (w: Uint32, next: nat)
      requires at < size <= data.Length
      ensures next == if at + 4 <= size then at + 4 else size
      ensures WordsOf(data[at..size], !cpci) == [w] + WordsOf(data[next..size], !cpci)
    {
      var b := [data[at]];
      next := at + 1;
      if next < size {
        b, next := b + [data[next]], next + 1;
      }
      if next < size {
        b, next := b + [data[next]], next + 1;
      }
      if next < size {
        b, next := b + [data[next]], next + 1;
      }
      assert b == data[at..next];
      while |b| < 4
        invariant |b| <= 4 && b == data[at..next] + Zeros(|b| - (next - at)) && |b| >= next - at
        decreases 4 - |b|
      {
        b := b + [0];
      }
      w := Pack(b, !cpci);
      if at + 4 <= size {
        assert data[at..size][..4] == b && data[at..size][4..] == data[next..size];
      }
    }

    /** Sends a block word by word. */
    method DownloadCodeBlock(data: array<Byte>, size: nat)
      requires Valid() && size <= data.Length
      modifies this`log, this`progAddr
      ensures Valid() && ValuesOf(log) == ValuesOf(old(log)) + WordsOf(data[..size], !cpci)
    {
      var at := 0;
      assert data[0..size] == data[..size];
      while at != size
        invariant at <= size && Valid()
        invariant ValuesOf(log) + WordsOf(data[at..size], !cpci) == ValuesOf(old(log)) + WordsOf(data[..size], !cpci)
        decreases size - at
      {
        var w, next := NextWord(data, at, size);
        ghost var vs := ValuesOf(log);
        assert vs + ([w] + WordsOf(data[next..size], !cpci)) == (vs + [w]) + WordsOf(data[next..size], !cpci);
        WriteWord(w);
        at := next;
      }
    }

    /** Sends the rest of the file block by block. */
    method DownloadCode(file: File)
      requires Valid() && log == [] && bytesSent == 0 && file.pos <= |file.data|
      modifies this, file
      ensures Valid() && bytesSent == |old(file.Rest())|
      ensures ValuesOf(log) == WordsOf(old(file.Rest()), !cpci)
    {
      ghost var all := file.Rest();
      var buf := new Byte[READ_BUFFER_SIZE];
      var size := NextBlock(file, buf);
      ghost var sent: nat := 0;
      assert Cursor(all, 0, buf[..size], file.Rest()) by {
        assert all[0..] == all;
      }
      NoWords(!cpci);
      hide *;
      while size != 0
        invariant Valid() && file.pos <= |file.data| && size <= buf.Length && sent <= |all|
        invariant Cursor(all, sent, buf[..size], file.Rest())
        invariant bytesSent == sent && ValuesOf(log) == WordsOf(all[..sent], !cpci)
        decreases |all| - sent
      {
        ghost var block, rest := buf[..size], file.Rest();
        DownloadCodeBlock(buf, size);
        bytesSent := bytesSent + size;
        BlockJoins(all, sent, block, rest, !cpci);
        size := NextBlock(file, buf);
        CursorMoves(all, sent, block, buf[..size], file.Rest());
        sent := sent + |block|;
      }
      CursorEnds(all, sent, file.Rest());
    }

    /** The whole download: what the card received unpacks to the payload and zeros to the next word. */
    method BeginCodeDownload(file: File, ghost h: Header, ghost payload: seq<Byte>, ghost bare: bool)
      requires Valid() && log == [] && bytesSent == 0
      requires file.pos == 0 && Expected(file.data, h, payload, bare)
      modifies this, file
      ensures Addressed(log, cpci) && bytesSent == |payload|
      ensures BytesOf(ValuesOf(log), !cpci) == payload + Zeros(Fill(|payload|))
      ensures |log| == (|payload| + 3) / 4
      ensures forall i: nat :: i < |payload| ==>
                log[i / 4].value / Place(if cpci then 3 - i % 4 else i % 4) % 0x100 == payload[i]
    {
      StripHeader(file, h, payload, bare);
      DownloadCode(file);
      WordsRoundTrip(payload, !cpci);
      hide WordsOf, BytesOf, Place;
      if payload == [] {
        NoWords(!cpci);
      } else {
        WordsHaveBytes(payload, !cpci, 0);
      }
      forall i: nat | i < |payload|
        ensures log[i / 4].value / Place(if cpci then 3 - i % 4 else i % 4) % 0x100 == payload[i]
      {
        WordsHaveBytes(payload, !cpci, i);
        assert ValuesOf(log)[i / 4] == log[i / 4].value;
      }
    }
  }
}
