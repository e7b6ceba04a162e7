/** Little-endian integers: fixed-width values and their byte strings. */
module LittleEndian {
  import opened BitStrings

  type u16 = x: nat | x < 0x1_0000
  type u64 = x: nat | x < 0x1_0000_0000_0000_0000

  // ---- specification ----

  /** The byte with value n. */
  function ByteOf(n: nat): (b: byte)
    requires n < 256
    ensures b as nat == n == Value(b)
  {
    if n == 0 then 0
    else
      var half := ByteOf(n / 2);
      DoubleByte(half);
      if n % 2 == 0 then half << 1 else (half << 1) | 1
  }

  lemma DoubleByte(b: byte)
    requires b as nat < 128
    ensures (b << 1) as nat == 2 * (b as nat) && ((b << 1) | 1) as nat == 2 * (b as nat) + 1
  {
  }

  lemma ByteOfValue(b: byte)
    ensures ByteOf(Value(b)) == b
  {
    SameValue(ByteOf(b as nat), b);
  }

  lemma SameValue(a: byte, b: byte)
    requires a as nat == b as nat
    ensures a == b
  {
  }

  function Le32(v: u32): (b: seq<byte>)
    ensures |b| == 4
  {
    [LowByte(v), LowByte(DropByte(v)), LowByte(DropByte(DropByte(v))), LowByte(DropByte(DropByte(DropByte(v))))]
  }

  function FromLe32(b: seq<byte>): u32
    requires |b| == 4
  {
    (b[0] as u32) | ((b[1] as u32) << 8) | ((b[2] as u32) << 16) | ((b[3] as u32) << 24)
  }

  /** The n low base-256 digits of v, least significant first. */
  function Le(v: nat, n: nat): (b: seq<byte>)
    ensures |b| == n
  {
    if n == 0 then [] else [ByteOf(v % 256)] + Le(v / 256, n - 1)
  }

  function Value(b: byte): (n: nat)
    ensures n < 256
  {
    b as nat
  }

  function FromLe(b: seq<byte>): nat {
    if b == [] then 0 else Value(b[0]) + 256 * FromLe(b[1..])
  }

  function Exp256(n: nat): nat {
    if n == 0 then 1 else 256 * Exp256(n - 1)
  }

  lemma Le32RoundTrip(v: u32)
    ensures FromLe32(Le32(v)) == v
  {
  }

  lemma FromLe32RoundTrip(b: seq<byte>)
    requires |b| == 4
    ensures Le32(FromLe32(b)) == b
  {
  }

  lemma {:induction false} LeRoundTrip(v: nat, n: nat)
    requires v < Exp256(n)
    ensures FromLe(Le(v, n)) == v
    decreases n
  {
    if n == 0 {
    } else {
      LeRoundTrip(v / 256, n - 1);
    }
  }

  lemma LowDigit(d: nat, n: nat)
    requires d < 256
    ensures (d + 256 * n) % 256 == d && (d + 256 * n) / 256 == n
  {
  }

  lemma {:induction false} FromLeRoundTrip(b: seq<byte>)
    ensures FromLe(b) < Exp256(|b|)
    ensures Le(FromLe(b), |b|) == b
  {
    hide Value, ByteOf;
    if b == [] {
    } else {
      FromLeRoundTrip(b[1..]);
      ByteOfValue(b[0]);
      LowDigit(Value(b[0]), FromLe(b[1..]));
      assert Le(FromLe(b), |b|) == [b[0]] + b[1..];
    }
  }

  lemma Widths()
    ensures Exp256(2) == 0x1_0000 && Exp256(8) == 0x1_0000_0000_0000_0000
  {
    assert Exp256(4) == 0x1_0000_0000;
  }

  // ---- in plain numbers ----

  lemma Le32InBits(v: u32)
    ensures Le32(v) == [(v & 0xFF) as byte, ((v >> 8) & 0xFF) as byte, ((v >> 16) & 0xFF) as byte,
                        ((v >> 24) & 0xFF) as byte]
  {
    TwoDrops(v);
    ThreeDrops(v);
  }

  lemma TwoDrops(v: u32)
    ensures DropByte(DropByte(v)) == v >> 16
  {
  }

  lemma ThreeDrops(v: u32)
    ensures DropByte(DropByte(DropByte(v))) == v >> 24
  {
  }

  lemma OneByte(b: byte, rest: seq<byte>)
    ensures FromLe([b] + rest) == b as nat + 0x100 * FromLe(rest)
  {
    assert ([b] + rest)[1..] == rest;
  }

  /** What two and eight bytes mean. */
  lemma TwoBytes(b: seq<byte>)
    requires |b| == 2
    ensures FromLe(b) == b[0] as nat + 0x100 * b[1] as nat
  {
    hide FromLe;
    OneByte(b[1], []);
    OneByte(b[0], [b[1]]);
    NoByte();
    assert [b[0]] + [b[1]] == b && [b[1]] + [] == [b[1]];
  }

  lemma NoByte()
    ensures FromLe([]) == 0
  {
  }

  lemma FourBytes(b: seq<byte>, rest: seq<byte>)
    requires |b| == 4
    ensures FromLe(b + rest) == b[0] as nat + 0x100 * b[1] as nat + 0x1_0000 * b[2] as nat + 0x100_0000 * b[3] as nat +
                                0x1_0000_0000 * FromLe(rest)
  {
    hide FromLe;
    var r3 := [b[3]] + rest;
    var r2 := [b[2]] + r3;
    var r1 := [b[1]] + r2;
    OneByte(b[3], rest);
    OneByte(b[2], r3);
    OneByte(b[1], r2);
    OneByte(b[0], r1);
    assert [b[0]] + r1 == b + rest;
  }

  lemma EightBytes(b: seq<byte>)
    requires |b| == 8
    ensures FromLe(b) == b[0] as nat + 0x100 * b[1] as nat + 0x1_0000 * b[2] as nat + 0x100_0000 * b[3] as nat +
                         0x1_0000_0000 * b[4] as nat + 0x100_0000_0000 * b[5] as nat +
                         0x1_0000_0000_0000 * b[6] as nat + 0x100_0000_0000_0000 * b[7] as nat
  {
    hide FromLe;
    FourBytes(b[..4], b[4..]);
    FourBytes(b[4..], []);
    NoByte();
    assert b[..4] + b[4..] == b && b[4..] + [] == b[4..];
  }
}
