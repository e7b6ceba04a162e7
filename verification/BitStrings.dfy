/** Finite bit strings: the common ground of the checksum register and of polynomial division. */
module BitStrings {

  type byte = bv8
  type u32 = bv32

  /** A byte string that names something: a path or a part of one. */
  type Text = seq<byte>

  /** n zero bits. */
  function Zeros(n: nat): (z: seq<bool>)
    ensures |z| == n
    ensures forall i :: 0 <= i < n ==> !z[i]
  {
    seq(n, i => false)
  }

  /** Bitwise exclusive or, which is also the sum and the difference of two polynomials over GF(2). */
  function Xor(p: seq<bool>, q: seq<bool>): (r: seq<bool>)
    requires |p| == |q|
    ensures |r| == |p|
    ensures forall i :: 0 <= i < |r| ==> r[i] == (p[i] != q[i])
  {
    seq(|p|, i requires 0 <= i < |p| => p[i] != q[i])
  }

  function Complement(p: seq<bool>): (r: seq<bool>)
    ensures |r| == |p|
    ensures forall i :: 0 <= i < |r| ==> r[i] == !p[i]
  {
    seq(|p|, i requires 0 <= i < |p| => !p[i])
  }

  predicate Odd(x: u32) {
    x & 1 == 1
  }

  function Half(x: u32): u32 {
    x >> 1
  }

  /** Exclusive or of two words: the sum of two registers over GF(2). */
  function Xor32(x: u32, y: u32): u32 {
    x ^ y
  }

  function XorByte(a: byte, b: byte): byte {
    a ^ b
  }

  function LowByte(x: u32): byte {
    (x & 0xFF) as byte
  }

  function DropByte(x: u32): u32 {
    x >> 8
  }

  /** The n low bits of a word, least significant first. */
  function WordBits(x: u32, n: nat): (bits: seq<bool>)
    ensures |bits| == n
  {
    if n == 0 then [] else [Odd(x)] + WordBits(Half(x), n - 1)
  }

  /** The bits of one byte, least significant first: the order in which they enter the register. */
  function ByteBits(b: byte): (bits: seq<bool>)
    ensures |bits| == 8
  {
    WordBits(b as u32, 8)
  }

  function Bits(data: seq<byte>): (bits: seq<bool>)
    ensures |bits| == 8 * |data|
    decreases |data|
  {
    if data == [] then [] else ByteBits(data[0]) + Bits(data[1..])
  }

  /** A mask with one more low bit. */
  function Grow(m: u32): u32 {
    (m << 1) | 1
  }

  /** x has no bit outside the mask. */
  predicate Clear(x: u32, m: u32) {
    x & !m == 0
  }

  /** The word whose n low bits are set (n at most 32). */
  function Mask(n: nat): u32 {
    if n == 0 then 0 else Grow(Mask(n - 1))
  }

  /** x uses at most its n low bits. */
  predicate Fits(x: u32, n: nat) {
    Clear(x, Mask(n))
  }

  lemma {:induction false} Mask31()
    ensures Mask(31) == 0x7FFF_FFFF
  {
    assert Mask(4) == 0xF;
    assert Mask(8) == 0xFF;
    assert Mask(12) == 0xFFF;
    assert Mask(16) == 0xFFFF;
    assert Mask(20) == 0xF_FFFF;
    assert Mask(24) == 0xFF_FFFF;
    assert Mask(28) == 0xFFF_FFFF;
  }

  lemma {:induction false} MaskBelowTop(n: nat)
    requires n <= 31
    ensures Mask(n) & 0x8000_0000 == 0
  {
    Mask31();
    MaskGrows(n, 31);
  }

  lemma ShiftedMasks(m: u32, n: u32)
    requires m & !n == 0
    ensures ((m << 1) | 1) & !((n << 1) | 1) == 0
  {
  }

  lemma {:induction false} MaskGrows(m: nat, n: nat)
    requires m <= n
    ensures Mask(m) & !Mask(n) == 0
    decreases m
  {
    if m == 0 {
    } else {
      MaskGrows(m - 1, n - 1);
      ShiftedMasks(Mask(m - 1), Mask(n - 1));
    }
  }

  lemma HalfClear(x: u32, m: u32)
    ensures Clear(Half(x), m) <==> Clear(x, Grow(m))
  {
  }

  lemma MaskStep(n: nat)
    requires n > 0
    ensures Mask(n) == Grow(Mask(n - 1))
  {
    hide Grow;
  }

  lemma HalfFits(x: u32, n: nat)
    requires n > 0
    ensures Fits(Half(x), n - 1) <==> Fits(x, n)
  {
    hide Mask, Clear, Grow, Half;
    MaskStep(n);
    HalfClear(x, Mask(n - 1));
  }

  predicate TopClear(x: u32) {
    x & 0x8000_0000 == 0
  }

  lemma FitsTopClear(x: u32, n: nat)
    requires n <= 31 && Fits(x, n)
    ensures TopClear(x)
  {
    MaskBelowTop(n);
    MaskedTop(x, Mask(n));
  }

  lemma MaskedTop(x: u32, m: u32)
    requires x & !m == 0 && m & 0x8000_0000 == 0
    ensures x & 0x8000_0000 == 0
  {
  }

  lemma TopClearFits(x: u32)
    requires TopClear(x)
    ensures Fits(x, 31)
  {
    Mask31();
  }

  /** A leading zero bit of a word shows up as a trailing zero of its bit string. */
  lemma {:induction false} WordBitsExtend(x: u32, n: nat)
    requires Fits(x, n)
    ensures WordBits(x, n + 1) == WordBits(x, n) + [false]
  {
    if n == 0 {
    } else {
      HalfFits(x, n);
      WordBitsExtend(x >> 1, n - 1);
    }
  }

  lemma HalfXor(x: u32, y: u32)
    ensures Half(Xor32(x, y)) == Xor32(Half(x), Half(y))
    ensures Odd(Xor32(x, y)) <==> Odd(x) != Odd(y)
  {
  }

  lemma {:induction false} WordBitsXor(x: u32, y: u32, n: nat)
    ensures WordBits(Xor32(x, y), n) == Xor(WordBits(x, n), WordBits(y, n))
    decreases n
  {
    hide Odd, Half, Xor32;
    if n == 0 {
    } else {
      HalfXor(x, y);
      WordBitsXor(Half(x), Half(y), n - 1);
    }
  }

  lemma {:induction false} BitsConcat(a: seq<byte>, b: seq<byte>)
    ensures Bits(a + b) == Bits(a) + Bits(b)
  {
    hide ByteBits;
    if a == [] {
      assert a + b == b;
    } else {
      assert (a + b)[1..] == a[1..] + b;
      BitsConcat(a[1..], b);
    }
  }

  predicate Agree(x: u32, y: u32, mask: u32) {
    (x ^ y) & mask == 0
  }

  lemma HalvesAgree(x: u32, y: u32, m: u32)
    requires Agree(x, y, (m << 1) | 1)
    ensures (Odd(x) <==> Odd(y)) && Agree(Half(x), Half(y), m)
  {
  }

  /** Words that agree on their n low bits have the same bit string. */
  lemma {:induction false} WordBitsAgree(x: u32, y: u32, n: nat)
    requires Agree(x, y, Mask(n))
    ensures WordBits(x, n) == WordBits(y, n)
    decreases n
  {
    hide Odd, Half, Agree;
    if n == 0 {
    } else {
      HalvesAgree(x, y, Mask(n - 1));
      WordBitsAgree(Half(x), Half(y), n - 1);
    }
  }

  lemma {:induction false} WordBitsInjective(x: u32, y: u32, n: nat)
    requires Fits(x, n) && Fits(y, n) && WordBits(x, n) == WordBits(y, n)
    ensures x == y
  {
    if n == 0 {
      FitsZero(x);
      FitsZero(y);
    } else {
      HalfFits(x, n);
      HalfFits(y, n);
      assert WordBits(x, n)[1..] == WordBits(Half(x), n - 1) && WordBits(y, n)[1..] == WordBits(Half(y), n - 1);
      WordBitsInjective(Half(x), Half(y), n - 1);
      assert Odd(x) == WordBits(x, n)[0] == Odd(y);
      OddHalf(x, y);
    }
  }

  lemma FitsZero(x: u32)
    ensures Fits(x, 0) ==> x == 0
  {
  }

  lemma OddHalf(x: u32, y: u32)
    requires Half(x) == Half(y) && (Odd(x) <==> Odd(y))
    ensures x == y
  {
  }

  lemma ByteFits(b: byte)
    ensures Fits(b as u32, 8)
  {
    assert Mask(4) == 0xF;
    assert Mask(8) == 0xFF;
  }

  lemma ByteBitsInjective(a: byte, b: byte)
    requires ByteBits(a) == ByteBits(b)
    ensures a == b
  {
    ByteFits(a);
    ByteFits(b);
    WordBitsInjective(a as u32, b as u32, 8);
  }

  lemma LowByteBits(x: u32)
    ensures ByteBits(LowByte(x)) == WordBits(x, 8)
  {
    assert Mask(4) == 0xF;
    assert Mask(8) == 0xFF;
    LowByteAgrees(x);
    WordBitsAgree(LowByte(x) as u32, x, 8);
  }

  lemma LowByteAgrees(x: u32)
    ensures ((LowByte(x) as u32) ^ x) & 0xFF == 0
  {
  }

  lemma {:induction false} BitsInjective(a: seq<byte>, b: seq<byte>)
    requires Bits(a) == Bits(b)
    ensures a == b
  {
    hide ByteBits;
    if a == [] {
    } else {
      assert ByteBits(a[0]) == Bits(a)[..8] == Bits(b)[..8] == ByteBits(b[0]);
      ByteBitsInjective(a[0], b[0]);
      assert Bits(a[1..]) == Bits(a)[8..] == Bits(b)[8..] == Bits(b[1..]);
      BitsInjective(a[1..], b[1..]);
    }
  }
}
