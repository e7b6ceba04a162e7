/** Polynomials over GF(2) and division by the generator of CRC32C (section 12.1 of RFC 3720).
    A polynomial is the bit string of its coefficients, highest degree first. */
module Castagnoli {
  import opened BitStrings

  /** The exponents below 32 of the generator 0x11EDC6F41. */
  const EXPONENTS: set<int> := {28, 27, 26, 25, 23, 22, 20, 19, 18, 14, 13, 11, 10, 9, 8, 6, 0}

  /** The generator without its leading coefficient: from x^31 down to x^0. */
  function Tail(): (g: seq<bool>)
    ensures |g| == 32
  {
    seq(32, i => 31 - i in EXPONENTS)
  }

  /** Coefficient i of the generator, counted from the leading one. */
  predicate GeneratorBit(i: nat)
    ensures i > 32 ==> !GeneratorBit(i)
    ensures GeneratorBit(0)
  {
    i == 0 || (i <= 32 && Tail()[i - 1])
  }

  function Generator(): (g: seq<bool>)
    ensures |g| == 33
    ensures forall i :: 0 <= i < 33 ==> g[i] == GeneratorBit(i)
  {
    [true] + Tail()
  }

  /** Subtract the generator if the leading coefficient is set, and drop that coefficient. */
  function Cancel(p: seq<bool>): (p': seq<bool>)
    requires |p| > 32
    ensures |p'| == |p| - 1
    ensures forall i :: 1 <= i < |p| ==> p'[i - 1] == (p[i] != (p[0] && GeneratorBit(i)))
  {
    (if p[0] then Xor(p[1..33], Tail()) else p[1..33]) + p[33..]
  }

  /** Schoolbook long division: cancel the leading coefficient until 32 coefficients are left. */
  function Remainder(p: seq<bool>): (r: seq<bool>)
    requires |p| >= 32
    ensures |r| == 32
    decreases |p|
  {
    if |p| == 32 then p
    else Remainder(Cancel(p))
  }

  /** The product of q and the generator, written with |q| + 32 coefficients. */
  function Multiple(q: seq<bool>): (p: seq<bool>)
    ensures |p| == |q| + 32
  {
    if q == [] then Zeros(32)
    else Xor(if q[0] then Generator() + Zeros(|q| - 1) else Zeros(|q| + 32), [false] + Multiple(q[1..]))
  }

  /** q * G + r. */
  function Value(q: seq<bool>, r: seq<bool>): (p: seq<bool>)
    requires |r| == 32
    ensures |p| == |q| + 32
  {
    Xor(Multiple(q), Zeros(|q|) + r)
  }

  /** p == q * G + r with r of degree below 32. */
  ghost predicate Divides(p: seq<bool>, q: seq<bool>, r: seq<bool>) {
    |r| == 32 && p == Value(q, r)
  }

  function Quotient(p: seq<bool>): (q: seq<bool>)
    requires |p| >= 32
    ensures |q| == |p| - 32
    decreases |p|
  {
    if |p| == 32 then []
    else [p[0]] + Quotient(Cancel(p))
  }

  lemma ValueStep(q: seq<bool>, r: seq<bool>, i: nat)
    requires q != [] && |r| == 32 && i < |q| + 32
    ensures Value(q, r)[i] == if i == 0 then q[0] else Value(q[1..], r)[i - 1] != (q[0] && GeneratorBit(i))
  {
    hide GeneratorBit, Tail;
    assert Multiple(q)[i] == ((q[0] && GeneratorBit(i)) != ([false] + Multiple(q[1..]))[i]);
    assert i > 0 ==> (Zeros(|q|) + r)[i] == (Zeros(|q| - 1) + r)[i - 1];
  }

  /** One step of the division undoes one step of the product. */
  lemma DivisionStep(p: seq<bool>, q: seq<bool>, r: seq<bool>)
    requires |p| > 32 && q != [] && |r| == 32 && |p| == |q| + 32
    ensures p == Value(q, r) <==> q[0] == p[0] && Cancel(p) == Value(q[1..], r)
  {
    hide Value, Cancel, GeneratorBit;
    var sum, sum' := Value(q, r), Value(q[1..], r);
    ValueStep(q, r, 0);
    forall i | 1 <= i < |p|
      ensures sum[i] == (sum'[i - 1] != (q[0] && GeneratorBit(i)))
    {
      ValueStep(q, r, i);
    }
    if p == sum {
      forall j | 0 <= j < |sum'| ensures Cancel(p)[j] == sum'[j] {
        assert p[j + 1] == sum[j + 1];
      }
    }
    if q[0] == p[0] && Cancel(p) == sum' {
      forall i | 1 <= i < |p| ensures p[i] == sum[i] {
        assert Cancel(p)[i - 1] == sum'[i - 1];
      }
      assert p[0] == sum[0];
      assert p == sum;
    }
  }

  /** Long division computes the quotient and the remainder, and they are unique. */
  lemma {:induction false} RemainderIsUnique(p: seq<bool>, q: seq<bool>, r: seq<bool>)
    requires |p| >= 32
    ensures Divides(p, q, r) <==> q == Quotient(p) && r == Remainder(p)
    decreases |p|
  {
    if |r| == 32 && |p| == |q| + 32 {
      if |p| == 32 {
        assert Value(q, r) == r;
      } else {
        hide Value, Cancel;
        DivisionStep(p, q, r);
        RemainderIsUnique(Cancel(p), q[1..], r);
        assert q == [q[0]] + q[1..];
      }
    }
  }
}
