/** The checksum: a 32-bit shift register with a 256-entry table, and the algebra of the register. */
module Crc32c {
  import opened BitStrings

  const POLY: u32 := 0x82F6_3B78
  const ONES: u32 := 0xFFFF_FFFF

  // ---- the register, one bit at a time ----

  /** Shift out one zero bit; the inner step of the table construction. */
  function Shift(c: u32): u32 {
    if Odd(c) then Xor32(POLY, Half(c)) else Half(c)
  }

  function Shift8(c: u32): u32 {
    Shift(Shift(Shift(Shift(Shift(Shift(Shift(Shift(c))))))))
  }

  function ByteStep(s: u32, b: byte): u32 {
    Shift8(Xor32(s, b as u32))
  }

  /** The register after feeding data, one byte after the other. */
  function Register(s: u32, data: seq<byte>): u32
    decreases |data|
  {
    if data == [] then s else Register(ByteStep(s, data[0]), data[1..])
  }

  /** CRC32C: register preset to ones, result complemented. */
  function Checksum(data: seq<byte>): u32 {
    Xor32(Register(ONES, data), ONES)
  }

  function BitStep(s: u32, bit: bool): u32 {
    Shift(Xor32(s, if bit then 1 else 0))
  }

  function BitRegister(s: u32, bits: seq<bool>): u32
    decreases |bits|
  {
    if bits == [] then s else BitRegister(BitStep(s, bits[0]), bits[1..])
  }

  // ---- the table and the streaming object ----

  /** The lookup table and its ready flag. */
  class Table {
    const cells: array<u32>
    var ready: bool

    constructor ()
      ensures fresh(cells) && cells.Length == 256 && !ready
    {
      cells := new u32[256];
      ready := false;
    }

    ghost predicate Valid()
      reads this, cells
    {
      ready && cells.Length == 256 && forall i :: 0 <= i < 256 ==> cells[i] == Shift8((i as byte) as u32)
    }

    method Build()
      requires cells.Length == 256
      requires ready ==> Valid()
      modifies this, cells
      ensures Valid()
      ensures old(ready) ==> cells[..] == old(cells[..])
    {
      if ready {
        return;
      }
      hide Shift8, Xor32, Odd, Half;
      for i := 0 to 256
        invariant forall k :: 0 <= k < i ==> cells[k] == Shift8((k as byte) as u32)
      {
        ghost var start := (i as byte) as u32;
        var c := (i as byte) as u32;
        for j := 0 to 8
          invariant Shifts(c, 8 - j) == Shifts(start, 8)
        {
          if Odd(c) {
            c := Xor32(0x82F6_3B78, Half(c));
          } else {
            c := Half(c);
          }
        }
        EightShifts(start);
        cells[i] := c;
      }
      ready := true;
    }
  }

  class Crc32 {
    const table: Table
    var state: u32

    constructor (table: Table)
      ensures this.table == table && state == ONES
    {
      this.table := table;
      state := 0xFFFF_FFFF;
    }

    method Reset()
      modifies this
      ensures state == ONES
    {
      state := 0xFFFF_FFFF;
    }

    method Update(data: array<byte>, length: nat)
      requires table.Valid() && length <= data.Length
      modifies this
      ensures state == Register(old(state), data[..length])
    {
      hide ByteStep, Shift8, Xor32, LowByte, DropByte;
      var s := state;
      for i := 0 to length
        invariant Register(s, data[i..length]) == Register(old(state), data[..length])
      {
        TableStep(s, data[i]);
        s := Xor32(table.cells[LowByte(Xor32(s, data[i] as u32)) as nat], DropByte(s));
        assert data[i..length][1..] == data[i + 1..length];
      }
      assert data[length..length] == [];
      state := s;
    }

    function Final(): u32
      reads this
    {
      Xor32(state, ONES)
    }

    static method Compute(table: Table, data: array<byte>, length: nat) returns (crc: u32)
      requires table.Valid() && length <= data.Length
      ensures crc == Checksum(data[..length])
    {
      var c := new Crc32(table);
      c.Update(data, length);
      crc := c.Final();
    }
  }

  function Shifts(c: u32, n: nat): u32
    decreases n
  {
    if n == 0 then c else Shifts(Shift(c), n - 1)
  }

  lemma EightShifts(c: u32)
    ensures Shifts(c, 8) == Shift8(c)
  {
    hide Shift;
    assert Shifts(c, 8) == Shifts(Shift(Shift(Shift(Shift(c)))), 4);
  }

  // ---- linearity and invertibility of one step ----

  lemma ShiftAsSum(a: u32)
    ensures Shift(a) == Xor32(if Odd(a) then POLY else 0, Half(a))
  {
    XorCommutes(0, Half(a));
    XorCancels(Half(a), 0);
  }

  lemma ShiftXor(a: u32, b: u32)
    ensures Shift(Xor32(a, b)) == Xor32(Shift(a), Shift(b))
  {
    hide Odd, Half, Xor32, Shift;
    HalfXor(a, b);
    var p, q := if Odd(a) then POLY else 0, if Odd(b) then POLY else 0;
    ShiftAsSum(a);
    ShiftAsSum(b);
    ShiftAsSum(Xor32(a, b));
    XorExchange(p, Half(a), q, Half(b));
    XorCancels(POLY, 0);
    XorCommutes(0, POLY);
    XorCancels(0, 0);
  }

  lemma XorAssociates(a: u32, b: u32, c: u32)
    ensures Xor32(Xor32(a, b), c) == Xor32(a, Xor32(b, c))
  {
    assert Xor32(Xor32(a, b), c) == (a ^ b) ^ c;
    assert Xor32(a, Xor32(b, c)) == a ^ (b ^ c);
  }

  lemma XorCommutes(a: u32, b: u32)
    ensures Xor32(a, b) == Xor32(b, a)
  {
  }

  lemma XorCancels(a: u32, b: u32)
    ensures Xor32(a, a) == 0 && Xor32(a, 0) == a
    ensures Xor32(a, b) == 0 <==> a == b
  {
  }

  lemma XorExchange(a: u32, b: u32, c: u32, d: u32)
    ensures Xor32(Xor32(a, b), Xor32(c, d)) == Xor32(Xor32(a, c), Xor32(b, d))
  {
    hide Xor32;
    XorAssociates(a, b, Xor32(c, d));
    XorAssociates(b, c, d);
    XorCommutes(b, c);
    XorAssociates(c, b, d);
    XorAssociates(a, c, Xor32(b, d));
  }

  lemma ShiftZero(c: u32)
    ensures Shift(c) == 0 <==> c == 0
  {
  }

  lemma Shift8Xor(a: u32, b: u32)
    ensures Shift8(Xor32(a, b)) == Xor32(Shift8(a), Shift8(b))
  {
    hide Shift, Xor32;
    EightShifts(a);
    EightShifts(b);
    EightShifts(Xor32(a, b));
    ShiftsXor(a, b, 8);
  }

  lemma {:induction false} ShiftsXor(a: u32, b: u32, n: nat)
    ensures Shifts(Xor32(a, b), n) == Xor32(Shifts(a, n), Shifts(b, n))
    decreases n
  {
    hide Shift, Xor32;
    if n == 0 {
    } else {
      ShiftXor(a, b);
      ShiftsXor(Shift(a), Shift(b), n - 1);
    }
  }

  // ---- one table look-up does eight bit steps ----

  lemma EvenShift(c: u32)
    requires c & 1 == 0
    ensures Shift(c) == c >> 1
  {
  }

  lemma LowByteClear(x: u32)
    requires x & 0xFF == 0
    ensures x & 1 == 0 && (x >> 1) & 1 == 0 && ((x >> 1) >> 1) & 1 == 0 && (((x >> 1) >> 1) >> 1) & 1 == 0
    ensures ((((x >> 1) >> 1) >> 1) >> 1) & 0xF == 0
    ensures ((((((((x >> 1) >> 1) >> 1) >> 1) >> 1) >> 1) >> 1) >> 1) == x >> 8
  {
  }

  lemma LowNibbleClear(x: u32)
    requires x & 0xF == 0
    ensures x & 1 == 0 && (x >> 1) & 1 == 0 && ((x >> 1) >> 1) & 1 == 0 && (((x >> 1) >> 1) >> 1) & 1 == 0
  {
  }

  /** If no set bit reaches the low end, eight steps are a plain shift by a byte. */
  lemma HighPart(x: u32)
    requires x & 0xFF == 0
    ensures Shift8(x) == x >> 8
  {
    LowByteClear(x);
    var x1 := x >> 1; var x2 := x1 >> 1; var x3 := x2 >> 1; var x4 := x3 >> 1;
    EvenShift(x); EvenShift(x1); EvenShift(x2); EvenShift(x3);
    LowNibbleClear(x4);
    var x5 := x4 >> 1; var x6 := x5 >> 1; var x7 := x6 >> 1;
    EvenShift(x4); EvenShift(x5); EvenShift(x6); EvenShift(x7);
  }

  lemma SplitWord(x: u32)
    ensures x == Xor32(x & 0xFF, x & 0xFFFF_FF00) && (x & 0xFFFF_FF00) & 0xFF == 0 &&
            (x & 0xFFFF_FF00) >> 8 == DropByte(x) && LowByte(x) as u32 == x & 0xFF
  {
  }

  lemma DropXor(s: u32, b: byte)
    ensures DropByte(Xor32(s, b as u32)) == DropByte(s)
  {
  }

  lemma BackFromIndex(b: byte)
    ensures (b as nat) as byte == b && b as nat < 256
  {
  }

  lemma TableStep(s: u32, b: byte)
    ensures var index := LowByte(Xor32(s, b as u32)) as nat;
            index < 256 && Xor32(Shift8((index as byte) as u32), DropByte(s)) == ByteStep(s, b)
  {
    hide Shift8, Xor32, LowByte, DropByte;
    var x := Xor32(s, b as u32);
    BackFromIndex(LowByte(x));
    SplitWord(x);
    DropXor(s, b);
    Shift8Xor(x & 0xFF, x & 0xFFFF_FF00);
    HighPart(x & 0xFFFF_FF00);
  }
}
