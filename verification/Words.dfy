/** Fixed-width unsigned integers, as mathematical integers with a range. */
module Words {

  type Uint32 = x: int | 0 <= x < 0x1_0000_0000
  type Uint16 = x: int | 0 <= x < 0x1_0000
  type Byte = x: int | 0 <= x < 0x100

  /** Bitwise conjunction, as used to apply a network mask. */
  function And(a: Uint32, b: Uint32): (c: Uint32)
    ensures c <= a && c <= b
    decreases a
  {
    if a == 0 || b == 0 then 0
    else 2 * And(a / 2, b / 2) + (if a % 2 == 1 && b % 2 == 1 then 1 else 0)
  }

  /** Masking twice with the same mask is masking once. */
  lemma {:induction false} AndIdempotent(a: Uint32, b: Uint32)
    ensures And(And(a, b), b) == And(a, b)
    decreases a
  {
    if a != 0 && b != 0 {
      AndIdempotent(a / 2, b / 2);
    }
  }

  /** Four bytes as a word, least significant first or last. */
  function Pack(b: seq<Byte>, little: bool): (w: Uint32)
    requires |b| == 4
  {
    if little then b[0] as int + b[1] as int * 0x100 + b[2] as int * 0x1_0000 + b[3] as int * 0x100_0000
    else b[0] as int * 0x100_0000 + b[1] as int * 0x1_0000 + b[2] as int * 0x100 + b[3]
  }

  function Unpack(w: Uint32, little: bool): (b: seq<Byte>)
    ensures |b| == 4
  {
    var lo := [w % 0x100, w / 0x100 % 0x100, w / 0x1_0000 % 0x100, w / 0x100_0000];
    if little then lo else [lo[3], lo[2], lo[1], lo[0]]
  }

  /** What a byte counts for at position k of a word, least significant first. */
  function Place(k: nat): (n: nat)
    requires k < 4
    ensures n > 0
  {
    if k == 0 then 1 else if k == 1 then 0x100 else if k == 2 then 0x1_0000 else 0x100_0000
  }

  /** The bytes of a word are its digits to the base 256. */
  lemma {:induction false} UnpackDigits(w: Uint32, little: bool, k: nat)
    requires k < 4
    ensures Unpack(w, little)[if little then k else 3 - k] == w / Place(k) % 0x100
  {
  }

  lemma {:induction false} Digit(c: Byte, n: nat)
    ensures (c + 0x100 * n) % 0x100 == c && (c + 0x100 * n) / 0x100 == n
  {
  }

  lemma {:induction false} Digits(w: Uint32)
    ensures w / 0x1_0000 == w / 0x100 / 0x100
    ensures w / 0x100_0000 == w / 0x100 / 0x100 / 0x100
  {
  }

  lemma {:induction false} UnpackPack(b: seq<Byte>, little: bool)
    requires |b| == 4
    ensures Unpack(Pack(b, little), little) == b
  {
    var w := Pack(b, little);
    var c := if little then b else [b[3], b[2], b[1], b[0]];
    var z: nat := c[3];
    var y := c[2] + 0x100 * z;
    var x := c[1] + 0x100 * y;
    assert w == c[0] + 0x100 * x;
    Digit(c[0], x);
    Digit(c[1], y);
    Digit(c[2], z);
    Digits(w);
  }

  lemma {:induction false} PackUnpack(w: Uint32, little: bool)
    ensures Pack(Unpack(w, little), little) == w
  {
    var x, y, z := w / 0x100, w / 0x1_0000, w / 0x100_0000;
    assert w == w % 0x100 + 0x100 * x;
    assert x == x % 0x100 + 0x100 * y;
    assert y == y % 0x100 + 0x100 * z;
    var b := Unpack(w, little);
    assert if little then b == [w % 0x100, x % 0x100, y % 0x100, z] else b == [z, y % 0x100, x % 0x100, w % 0x100];
  }
}
