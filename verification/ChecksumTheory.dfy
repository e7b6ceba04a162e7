/** What the checksum means and what it detects. */
module ChecksumTheory {
  import opened BitStrings
  import opened Castagnoli
  import opened Crc32c
  import opened LittleEndian

  // ---- bytes as bits ----

  function Halves(x: u32, n: nat): u32
    decreases n
  {
    if n == 0 then x else Halves(Half(x), n - 1)
  }

  /** Feeding the low n bits of x while x itself sits in the register. */
  lemma {:induction false} FeedBits(s: u32, x: u32, n: nat)
    ensures Shifts(Xor32(s, x), n) == Xor32(BitRegister(s, WordBits(x, n)), Halves(x, n))
    decreases n
  {
    hide Shift, Xor32, Odd, Half, BitStep;
    if n == 0 {
    } else {
      FeedOneBit(s, x);
      FeedBits(BitStep(s, Odd(x)), Half(x), n - 1);
      assert WordBits(x, n)[1..] == WordBits(Half(x), n - 1);
    }
  }

  lemma FeedOneBit(s: u32, x: u32)
    ensures Shift(Xor32(s, x)) == Xor32(BitStep(s, Odd(x)), Half(x))
  {
    var bit: u32 := if Odd(x) then 1 else 0;
    assert Shift(bit) == if Odd(x) then POLY else 0;
    hide Shift, Xor32, Odd, Half;
    ShiftXor(s, x);
    ShiftAsSum(x);
    ShiftXor(s, bit);
    XorAssociates(Shift(s), Shift(bit), Half(x));
  }

  lemma {:induction false} HalvesVanish(x: u32, n: nat)
    requires Fits(x, n)
    ensures Halves(x, n) == 0
    decreases n
  {
    if n == 0 {
    } else {
      HalfFits(x, n);
      HalvesVanish(Half(x), n - 1);
    }
  }

  lemma LowByteOfByte(b: byte)
    ensures LowByte(b as u32) == b
  {
  }

  /** One table step consumes the eight bits of its byte. */
  lemma ByteStepBits(s: u32, b: byte)
    ensures ByteStep(s, b) == BitRegister(s, ByteBits(b))
  {
    LowByteOfByte(b);
    hide Shift, Shift8, Xor32, Odd, Half, LowByte, ByteBits;
    var x := b as u32;
    EightShifts(Xor32(s, x));
    FeedBits(s, x, 8);
    ByteFits(b);
    HalvesVanish(x, 8);
    LowByteBits(x);
    XorCancels(BitRegister(s, ByteBits(b)), 0);
  }

  lemma {:induction false} BitRegisterConcat(s: u32, u: seq<bool>, v: seq<bool>)
    ensures BitRegister(s, u + v) == BitRegister(BitRegister(s, u), v)
    decreases |u|
  {
    hide BitStep;
    if u == [] {
      assert u + v == v;
    } else {
      assert (u + v)[1..] == u[1..] + v;
      BitRegisterConcat(BitStep(s, u[0]), u[1..], v);
    }
  }

  lemma {:induction false} RegisterBits(s: u32, data: seq<byte>)
    ensures Register(s, data) == BitRegister(s, Bits(data))
    decreases |data|
  {
    hide ByteStep, BitStep, ByteBits;
    if data == [] {
    } else {
      ByteStepBits(s, data[0]);
      BitRegisterConcat(s, ByteBits(data[0]), Bits(data[1..]));
      RegisterBits(ByteStep(s, data[0]), data[1..]);
    }
  }

  /** Streaming: feeding two pieces one after the other is feeding their concatenation. */
  lemma {:induction false} RegisterConcat(s: u32, a: seq<byte>, b: seq<byte>)
    ensures Register(s, a + b) == Register(Register(s, a), b)
  {
    RegisterBits(s, a + b);
    RegisterBits(s, a);
    RegisterBits(Register(s, a), b);
    BitsConcat(a, b);
    BitRegisterConcat(s, Bits(a), Bits(b));
  }

  // ---- linearity ----

  lemma BitStepXor(s: u32, t: u32, x: bool, y: bool)
    ensures BitStep(Xor32(s, t), x != y) == Xor32(BitStep(s, x), BitStep(t, y))
  {
    var p: u32, q: u32 := if x then 1 else 0, if y then 1 else 0;
    assert Xor32(p, q) == if x != y then 1 else 0;
    hide Shift, Xor32;
    XorExchange(s, t, p, q);
    ShiftXor(Xor32(s, p), Xor32(t, q));
  }

  lemma {:induction false} BitRegisterXor(s: u32, t: u32, u: seq<bool>, v: seq<bool>)
    requires |u| == |v|
    ensures BitRegister(Xor32(s, t), Xor(u, v)) == Xor32(BitRegister(s, u), BitRegister(t, v))
    decreases |u|
  {
    hide BitStep, Xor32;
    if u == [] {
    } else {
      BitStepXor(s, t, u[0], v[0]);
      assert Xor(u, v)[1..] == Xor(u[1..], v[1..]);
      BitRegisterXor(BitStep(s, u[0]), BitStep(t, v[0]), u[1..], v[1..]);
    }
  }

  function XorBytes(a: seq<byte>, b: seq<byte>): (c: seq<byte>)
    requires |a| == |b|
    ensures |c| == |a|
  {
    if a == [] then [] else [XorByte(a[0], b[0])] + XorBytes(a[1..], b[1..])
  }

  lemma WidenXor(a: byte, b: byte)
    ensures (a ^ b) as u32 == Xor32(a as u32, b as u32)
  {
  }

  lemma ByteBitsXor(a: byte, b: byte)
    ensures ByteBits(XorByte(a, b)) == Xor(ByteBits(a), ByteBits(b))
  {
    WidenXor(a, b);
    WordBitsXor(a as u32, b as u32, 8);
  }

  lemma {:induction false} BitsXor(a: seq<byte>, b: seq<byte>)
    requires |a| == |b|
    ensures Bits(XorBytes(a, b)) == Xor(Bits(a), Bits(b))
  {
    hide ByteBits, XorByte;
    if a == [] {
    } else {
      ByteBitsXor(a[0], b[0]);
      BitsXor(a[1..], b[1..]);
    }
  }

  /** The checksum of the sum of three messages of equal length is the sum of their checksums. */
  lemma ChecksumAffine(a: seq<byte>, b: seq<byte>, c: seq<byte>)
    requires |a| == |b| == |c|
    ensures Checksum(XorBytes(XorBytes(a, b), c)) == Xor32(Xor32(Checksum(a), Checksum(b)), Checksum(c))
  {
    var ab := XorBytes(a, b);
    RegisterBits(ONES, a); RegisterBits(ONES, b); RegisterBits(ONES, c);
    RegisterBits(ONES, XorBytes(ab, c));
    BitsXor(a, b);
    BitsXor(ab, c);
    hide Xor32;
    XorCancels(ONES, 0);
    XorCommutes(0, ONES);
    BitRegisterXor(ONES, ONES, Bits(a), Bits(b));
    BitRegisterXor(0, ONES, Bits(ab), Bits(c));
    var x, y, z := Register(ONES, a), Register(ONES, b), Register(ONES, c);
    XorExchange(x, ONES, y, ONES);
    XorCancels(Xor32(x, y), 0);
    XorAssociates(Xor32(x, y), z, ONES);
  }

  // ---- what is always detected ----

  lemma StepTopClear(s: u32, bit: bool)
    requires TopClear(BitStep(s, bit))
    ensures BitStep(s, bit) == Half(s) && (Odd(s) <==> bit)
  {
  }

  /** A register that the bits e bring to zero uses no more than |e| bits. */
  lemma {:induction false} ZeroedRegisterFits(s: u32, e: seq<bool>)
    requires |e| <= 32 && BitRegister(s, e) == 0
    ensures Fits(s, |e|)
    decreases |e|
  {
    if e == [] {
    } else {
      hide BitStep, Half, Odd, TopClear, Fits;
      ZeroedRegisterFits(BitStep(s, e[0]), e[1..]);
      FitsTopClear(BitStep(s, e[0]), |e| - 1);
      StepTopClear(s, e[0]);
      HalfFits(s, |e|);
    }
  }

  /** No error pattern of at most 32 bits goes unnoticed. */
  lemma {:induction false} ShortErrorSeen(e: seq<bool>)
    requires |e| <= 32 && BitRegister(0, e) == 0
    ensures e == Zeros(|e|)
    decreases |e|
  {
    if e == [] {
    } else {
      assert Half(0) == 0 && !Odd(0);
      hide BitStep, Half, Odd, TopClear, Fits;
      ZeroedRegisterFits(BitStep(0, e[0]), e[1..]);
      FitsTopClear(BitStep(0, e[0]), |e| - 1);
      StepTopClear(0, e[0]);
      ShortErrorSeen(e[1..]);
    }
  }

  lemma BitStepZero(s: u32)
    ensures BitStep(s, false) == 0 <==> s == 0
  {
  }

  /** Zero bits neither create nor remove a difference. */
  lemma {:induction false} ZerosKeepDifference(d: u32, n: nat)
    ensures BitRegister(d, Zeros(n)) == 0 <==> d == 0
    decreases n
  {
    hide BitStep;
    if n == 0 {
    } else {
      BitStepZero(d);
      assert Zeros(n)[1..] == Zeros(n - 1);
      ZerosKeepDifference(BitStep(d, false), n - 1);
    }
  }

  /** The register is determined by its final value and the data. */
  lemma RegisterInjective(s: u32, t: u32, data: seq<byte>)
    ensures Register(s, data) == Register(t, data) <==> s == t
  {
    hide Xor32;
    var u := Bits(data);
    RegisterBits(s, data);
    RegisterBits(t, data);
    BitRegisterXor(s, t, u, u);
    assert Xor(u, u) == Zeros(|u|);
    ZerosKeepDifference(Xor32(s, t), |u|);
    XorCancels(BitRegister(s, u), BitRegister(t, u));
    XorCancels(s, t);
  }

  /** a and b agree on every bit outside the 32 bits from position at (bits counted as transmitted). */
  ghost predicate WithinBurst(a: seq<byte>, b: seq<byte>, at: nat) {
    |a| == |b| && forall i :: 0 <= i < 8 * |a| && !(at <= i < at + 32) ==> Bits(a)[i] == Bits(b)[i]
  }

  lemma BurstSeen(e: seq<bool>, lo: nat, hi: nat)
    requires lo <= hi <= |e| && hi - lo <= 32
    requires forall i :: 0 <= i < |e| && !(lo <= i < hi) ==> !e[i]
    requires BitRegister(0, e) == 0
    ensures e == Zeros(|e|)
  {
    hide BitRegister;
    var mid, rest := e[lo..hi], Zeros(|e| - hi);
    assert e == Zeros(lo) + (mid + rest);
    BitRegisterConcat(0, Zeros(lo), mid + rest);
    ZerosKeepDifference(0, lo);
    BitRegisterConcat(0, mid, rest);
    ZerosKeepDifference(BitRegister(0, mid), |e| - hi);
    ShortErrorSeen(mid);
  }

  /** Two different messages that differ in a burst of at most 32 bits leave different registers. */
  lemma BurstChangesRegister(s: u32, a: seq<byte>, b: seq<byte>, at: nat)
    requires a != b && WithinBurst(a, b, at)
    ensures Register(s, a) != Register(s, b)
  {
    hide Xor32, Bits, Register, BitRegister;
    if Register(s, a) == Register(s, b) {
      var e := Xor(Bits(a), Bits(b));
      RegisterBits(s, a);
      RegisterBits(s, b);
      BitRegisterXor(s, s, Bits(a), Bits(b));
      XorCancels(s, 0);
      XorCancels(Register(s, a), 0);
      BurstSeen(e, if at < |e| then at else |e|, if at + 32 < |e| then at + 32 else |e|);
      forall i | 0 <= i < |e| ensures Bits(a)[i] == Bits(b)[i] {
        assert !e[i];
      }
      assert Bits(a) == Bits(b);
      BitsInjective(a, b);
    }
  }

  /** So the checksums differ as well, at any message length. */
  lemma BurstChangesChecksum(a: seq<byte>, b: seq<byte>, at: nat)
    requires a != b && WithinBurst(a, b, at)
    ensures Checksum(a) != Checksum(b)
  {
    BurstChangesRegister(ONES, a, b, at);
    hide Xor32;
    Uncomplement(Register(ONES, a), Register(ONES, b));
  }

  lemma Uncomplement(x: u32, y: u32)
    ensures Xor32(x, ONES) == Xor32(y, ONES) <==> x == y
  {
  }

  // ---- the residue of a message followed by its checksum ----

  lemma {:induction false} WordBitsSplit(x: u32, m: nat, n: nat)
    ensures WordBits(x, m + n) == WordBits(x, m) + WordBits(Halves(x, m), n)
    decreases m
  {
    hide Odd, Half;
    if m == 0 {
    } else {
      WordBitsSplit(Half(x), m - 1, n);
    }
  }

  lemma DropByteHalves(x: u32)
    ensures Halves(x, 8) == DropByte(x)
  {
    EightHalves(x);
    hide Half, DropByte;
    assert Halves(x, 8) == Halves(Half(Half(Half(Half(x)))), 4);
  }

  lemma EightHalves(x: u32)
    ensures Half(Half(Half(Half(Half(Half(Half(Half(x)))))))) == DropByte(x)
  {
  }

  lemma FourBytesBits(b: seq<byte>)
    requires |b| == 4
    ensures Bits(b) == ByteBits(b[0]) + (ByteBits(b[1]) + (ByteBits(b[2]) + ByteBits(b[3])))
  {
    hide ByteBits;
    var b1 := b[1..]; var b2 := b1[1..]; var b3 := b2[1..];
    assert Bits(b3) == ByteBits(b3[0]) + Bits([]);
    assert Bits(b2) == ByteBits(b2[0]) + Bits(b3);
    assert Bits(b1) == ByteBits(b1[0]) + Bits(b2);
  }

  lemma Le32Bits(v: u32)
    ensures Bits(Le32(v)) == WordBits(v, 32)
  {
    hide LowByte, DropByte, ByteBits, WordBits, Bits;
    var d1 := DropByte(v); var d2 := DropByte(d1); var d3 := DropByte(d2);
    FourBytesBits(Le32(v));
    DropByteHalves(v); DropByteHalves(d1); DropByteHalves(d2);
    WordBitsSplit(v, 8, 24); WordBitsSplit(d1, 8, 16); WordBitsSplit(d2, 8, 8);
    LowByteBits(v); LowByteBits(d1); LowByteBits(d2); LowByteBits(d3);
  }

  /** The register after a message and its little-endian checksum, whatever the message. */
  function Residue(): u32 {
    Shifts(ONES, 32)
  }

  lemma FeedWord(s: u32, v: u32)
    ensures Register(s, Le32(v)) == Shifts(Xor32(s, v), 32)
  {
    FullMask(v);
    hide Xor32, Le32, Shift, Half, Odd;
    RegisterBits(s, Le32(v));
    Le32Bits(v);
    FeedBits(s, v, 32);
    HalvesVanish(v, 32);
    XorCancels(BitRegister(s, WordBits(v, 32)), 0);
  }

  lemma FullMask(v: u32)
    ensures Fits(v, 32)
  {
    Mask31();
  }

  lemma {:induction false} ShiftsInjective(a: u32, b: u32, n: nat)
    ensures Shifts(a, n) == Shifts(b, n) <==> a == b
    decreases n
  {
    hide Shift;
    if n == 0 {
    } else {
      ShiftInjective(a, b);
      ShiftsInjective(Shift(a), Shift(b), n - 1);
    }
  }

  lemma ShiftInjective(a: u32, b: u32)
    ensures Shift(a) == Shift(b) <==> a == b
  {
    hide Xor32, Shift;
    ShiftXor(a, b);
    ShiftZero(Xor32(a, b));
    XorCancels(a, b);
    XorCancels(Shift(a), Shift(b));
  }

  /** A trailing checksum is right exactly when message and trailer together leave the residue. */
  lemma ResidueCharacterises(data: seq<byte>, trailer: seq<byte>)
    requires |trailer| == 4
    ensures FromLe32(trailer) == Checksum(data) <==> Register(ONES, data + trailer) == Residue()
  {
    var r, v := Register(ONES, data), FromLe32(trailer);
    FromLe32RoundTrip(trailer);
    hide Xor32, FromLe32, Le32;
    RegisterConcat(ONES, data, trailer);
    FeedWord(r, v);
    ShiftsInjective(Xor32(r, v), ONES, 32);
    XorSolve(r, v, ONES);
  }

  lemma XorSolve(r: u32, v: u32, c: u32)
    ensures Xor32(r, v) == c <==> v == Xor32(r, c)
  {
    hide Xor32;
    XorAssociates(r, r, v); XorAssociates(r, r, c);
    XorCancels(r, 0); XorCommutes(0, v); XorCommutes(0, c); XorCancels(v, 0); XorCancels(c, 0);
  }

  // ---- the register as polynomial division ----

  /** Add w to the 32 leading coefficients of p. */
  function Load(p: seq<bool>, w: seq<bool>): (r: seq<bool>)
    requires |p| >= 32 && |w| == 32
    ensures |r| == |p|
  {
    Xor(p[..32], w) + p[32..]
  }

  function Append(w: u32, bit: bool): u32 {
    (w << 1) | (if bit then 1 else 0)
  }

  /** The word whose bits, least significant first, are b[i..]. */
  function FromBits(b: seq<bool>, i: nat): u32
    decreases |b| - i
  {
    if i >= |b| then 0 else Append(FromBits(b, i + 1), b[i])
  }

  lemma AppendBit(w: u32, bit: bool, n: nat)
    requires n <= 31 && Fits(w, n)
    ensures var x := Append(w, bit);
            Half(x) == w && (Odd(x) <==> bit) && Fits(x, n + 1)
  {
    hide Append, Half, Odd, Fits, TopClear;
    FitsTopClear(w, n);
    HalfOfAppend(w, bit);
    HalfFits(Append(w, bit), n + 1);
  }

  lemma HalfOfAppend(w: u32, bit: bool)
    requires TopClear(w)
    ensures Half(Append(w, bit)) == w && (Odd(Append(w, bit)) <==> bit)
  {
  }

  lemma FitsNothing()
    ensures Fits(0, 0) && Mask(0) == 0
  {
  }

  lemma {:induction false} FromBitsRoundTrip(b: seq<bool>, i: nat)
    requires i <= |b| <= 32
    ensures Fits(FromBits(b, i), |b| - i)
    ensures WordBits(FromBits(b, i), |b| - i) == b[i..]
    decreases |b| - i
  {
    hide Append, Half, Odd, Fits;
    if i == |b| {
      FitsNothing();
    } else {
      FromBitsRoundTrip(b, i + 1);
      AppendBit(FromBits(b, i + 1), b[i], |b| - i - 1);
    }
  }

  function Append4(w: u32, b0: bool, b1: bool, b2: bool, b3: bool): u32 {
    Append(Append(Append(Append(w, b3), b2), b1), b0)
  }

  lemma FourMore(b: seq<bool>, i: nat, b0: bool, b1: bool, b2: bool, b3: bool, w: u32, w': u32)
    requires i + 4 <= |b| && b[i] == b0 && b[i + 1] == b1 && b[i + 2] == b2 && b[i + 3] == b3 && FromBits(b, i + 4) == w
    requires w' == Append4(w, b0, b1, b2, b3)
    ensures FromBits(b, i) == w'
  {
    hide Append;
    assert FromBits(b, i + 2) == Append(Append(FromBits(b, i + 4), b3), b2);
  }

  lemma NoBits(b: seq<bool>, i: nat)
    requires i >= |b|
    ensures FromBits(b, i) == 0
  {
  }

  lemma TailBelow4()
    ensures FromBits(Tail(), 28) == 0x8
  {
    hide FromBits;
    NoBits(Tail(), 32);
    FourMore(Tail(), 28, false, false, false, true, 0x0, 0x8);
  }

  lemma TailBelow8()
    ensures FromBits(Tail(), 24) == 0x82
  {
    var t := Tail();
    TailBelow4();
    hide FromBits;
    FourMore(t, 24, false, true, false, false, 0x8, 0x82);
  }

  lemma TailBelow16()
    ensures FromBits(Tail(), 16) == 0x82F6
  {
    var t := Tail();
    TailBelow8();
    hide FromBits;
    FourMore(t, 20, true, true, true, true, 0x82, 0x82F);
    FourMore(t, 16, false, true, true, false, 0x82F, 0x82F6);
  }

  lemma TailBelow24()
    ensures FromBits(Tail(), 8) == 0x82F63B
  {
    var t := Tail();
    TailBelow16();
    hide FromBits;
    FourMore(t, 12, true, true, false, false, 0x82F6, 0x82F63);
    FourMore(t, 8, true, true, false, true, 0x82F63, 0x82F63B);
  }

  lemma TailBelow32()
    ensures FromBits(Tail(), 0) == 0x82F63B78
  {
    var t := Tail();
    TailBelow24();
    hide FromBits;
    FourMore(t, 4, true, true, true, false, 0x82F63B, 0x82F63B7);
    FourMore(t, 0, false, false, false, true, 0x82F63B7, 0x82F63B78);
  }

  lemma TailIsPoly()
    ensures Tail() == WordBits(POLY, 32)
  {
    hide FromBits, WordBits, Fits, Tail;
    TailBelow32();
    FromBitsRoundTrip(Tail(), 0);
  }

  lemma ShiftedBits(x: u32)
    ensures WordBits(Shift(x), 32) ==
            Xor(WordBits(x, 32)[1..] + [false], if Odd(x) then Tail() else Zeros(32))
  {
    var h, p := Half(x), if Odd(x) then POLY else 0;
    assert WordBits(h, 32) == WordBits(x, 32)[1..] + [false] by {
      HalfBits(x);
    }
    assert WordBits(p, 32) == if Odd(x) then Tail() else Zeros(32) by {
      TailIsPoly();
      ZeroBits(32);
    }
    hide Shift, Half, Xor32, Tail, Odd, WordBits, Xor;
    ShiftAsSum(x);
    XorCommutes(p, h);
    WordBitsXor(h, p, 32);
  }

  lemma HalfBits(x: u32)
    ensures WordBits(Half(x), 32) == WordBits(x, 32)[1..] + [false]
  {
    TopOfHalf(x);
    TopClearFits(Half(x));
    WordBitsExtend(Half(x), 31);
    hide Half, Odd;
    assert WordBits(x, 32)[1..] == WordBits(Half(x), 31);
  }

  lemma TopOfHalf(x: u32)
    ensures TopClear(Half(x))
  {
  }

  lemma {:induction false} ZeroBits(n: nat)
    ensures WordBits(0, n) == Zeros(n)
  {
    if n == 0 {
    } else {
      assert Half(0) == 0 && !Odd(0);
      ZeroBits(n - 1);
    }
  }

  lemma FirstBit(s: u32, bit: bool)
    ensures var x := Xor32(s, if bit then 1 else 0);
            Half(x) == Half(s) && (Odd(x) <==> Odd(s) != bit)
  {
  }

  lemma LoadStep(m: seq<bool>, w: seq<bool>, w': seq<bool>)
    requires m != [] && |w| == 32 == |w'|
    requires w' == Xor(w[1..] + [false], if m[0] != w[0] then Tail() else Zeros(32))
    ensures Cancel(Load(m + Zeros(32), w)) == Load(m[1..] + Zeros(32), w')
  {
    hide Tail;
    var p, p' := Load(m + Zeros(32), w), Load(m[1..] + Zeros(32), w');
    assert p[0] == (m[0] != w[0]);
    forall j | 0 <= j < |p'| ensures Cancel(p)[j] == p'[j] {
      assert (m + Zeros(32))[j + 1] == (m[1..] + Zeros(32))[j];
      assert Cancel(p)[j + 1 - 1] == (p[j + 1] != (p[0] && GeneratorBit(j + 1)));
    }
  }

  /** One step of the register is one step of the long division. */
  lemma DivisionTracksRegister(s: u32, m: seq<bool>)
    requires m != []
    ensures Cancel(Load(m + Zeros(32), WordBits(s, 32))) ==
            Load(m[1..] + Zeros(32), WordBits(BitStep(s, m[0]), 32))
  {
    hide Shift, Half, Odd, Xor32, Tail, Load, Cancel, Xor, Zeros;
    var x := Xor32(s, if m[0] then 1 else 0);
    FirstBit(s, m[0]);
    ShiftedBits(x);
    assert WordBits(x, 32)[1..] == WordBits(Half(x), 31) == WordBits(s, 32)[1..];
    LoadStep(m, WordBits(s, 32), WordBits(BitStep(s, m[0]), 32));
  }

  lemma {:induction false} RegisterIsRemainder(s: u32, m: seq<bool>)
    ensures WordBits(BitRegister(s, m), 32) == Remainder(Load(m + Zeros(32), WordBits(s, 32)))
    decreases |m|
  {
    hide BitStep, Cancel;
    if m == [] {
      assert Load(m + Zeros(32), WordBits(s, 32)) == WordBits(s, 32);
    } else {
      hide Load;
      DivisionTracksRegister(s, m);
      RegisterIsRemainder(BitStep(s, m[0]), m[1..]);
    }
  }

  /** The dividend of the standard: the message times x^32, its first 32 coefficients complemented. */
  function Dividend(data: seq<byte>): (p: seq<bool>)
    ensures |p| == 8 * |data| + 32
  {
    var p := Bits(data) + Zeros(32);
    Complement(p[..32]) + p[32..]
  }

  lemma AllOnes()
    ensures forall i :: 0 <= i < 32 ==> WordBits(ONES, 32)[i]
  {
    OneBits(32);
    Mask31();
  }

  lemma RegisterRemainder(data: seq<byte>)
    ensures WordBits(Register(ONES, data), 32) == Remainder(Dividend(data))
  {
    hide WordBits, Remainder, Bits, Register, BitRegister;
    RegisterBits(ONES, data);
    RegisterIsRemainder(ONES, Bits(data));
    assert Load(Bits(data) + Zeros(32), WordBits(ONES, 32)) == Dividend(data) by {
      AllOnes();
    }
  }

  /** CRC32C: the complement of the remainder of the dividend modulo the generator polynomial. */
  lemma ChecksumIsRemainder(data: seq<byte>)
    ensures WordBits(Checksum(data), 32) == Complement(Remainder(Dividend(data)))
    ensures exists q :: Divides(Dividend(data), q, Complement(WordBits(Checksum(data), 32)))
  {
    hide Remainder, Dividend, WordBits, Divides, Xor32;
    var r := Remainder(Dividend(data));
    RegisterRemainder(data);
    AllOnes();
    WordBitsXor(Register(ONES, data), ONES, 32);
    assert WordBits(Checksum(data), 32) == Complement(r);
    assert Complement(Complement(r)) == r;
    RemainderIsUnique(Dividend(data), Quotient(Dividend(data)), r);
  }

  lemma {:induction false} OneBits(n: nat)
    requires n <= 32
    ensures Fits(Mask(n), n)
    ensures forall i :: 0 <= i < n ==> WordBits(Mask(n), n)[i]
  {
    if n == 0 {
      FitsNothing();
    } else {
      MaskAppend(n);
      hide Append, Half, Odd, Fits, Mask;
      OneBits(n - 1);
      AppendBit(Mask(n - 1), true, n - 1);
    }
  }

  lemma MaskAppend(n: nat)
    requires n > 0
    ensures Mask(n) == Append(Mask(n - 1), true)
  {
    hide Mask, Append, Grow;
    MaskStep(n);
    GrowAppends(Mask(n - 1));
  }

  lemma GrowAppends(m: u32)
    ensures Grow(m) == Append(m, true)
  {
  }
}
