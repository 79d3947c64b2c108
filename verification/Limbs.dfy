/**
 The limb primitives behind big integers. A limb is a signed 32-bit word read as an unsigned one; each
 primitive gives the word it stores and the carry, borrow, high word or quotient it returns.
 */
module Limbs {
  import opened Int32

  /** What a primitive stores through its pointer, and whether it reports a carry or borrow. */
  datatype Carried = Carried(carry: bool, limb: int32)

  /** The word stored through the pointer, and the word returned. */
  datatype Pair = Pair(high: int32, low: int32)

  function Bit(carry: bool): nat {
    if carry then 1 else 0
  }

  function MbiInc(p: int32): (r: Carried)
    ensures Unsigned(r.limb) + BASE * Bit(r.carry) == Unsigned(p) + 1
  {
    var p' := Wrap(p + 1);
    Carried(p' == 0, p')
  }

  function MbiAdd(a: int32, b: int32): (r: Carried)
    ensures Unsigned(r.limb) + BASE * Bit(r.carry) == Unsigned(a) + Unsigned(b)
  {
    var p := Wrap(a + b);
    Carried(Unsigned(p) < Unsigned(a), p)
  }

  function MbiAddWithInc(a: int32, b: int32): (r: Carried)
    ensures Unsigned(r.limb) + BASE * Bit(r.carry) == Unsigned(a) + Unsigned(b) + 1
  {
    var p := Wrap(a + b + 1);
    Carried(Unsigned(p) <= Unsigned(a), p)
  }

  function MbiDec(p: int32): (r: Carried)
    ensures Unsigned(r.limb) - BASE * Bit(r.carry) == Unsigned(p) - 1
  {
    Carried(p == 0, Wrap(p - 1))
  }

  function MbiSubtract(a: int32, b: int32): (r: Carried)
    ensures Unsigned(r.limb) - BASE * Bit(r.carry) == Unsigned(a) - Unsigned(b)
  {
    var p := Wrap(a - b);
    Carried(Unsigned(p) > Unsigned(a), p)
  }

  function MbiSubtractWithDec(a: int32, b: int32): (r: Carried)
    ensures Unsigned(r.limb) - BASE * Bit(r.carry) == Unsigned(a) - Unsigned(b) - 1
  {
    var p := Wrap(a - b - 1);
    Carried(Unsigned(p) >= Unsigned(a), p)
  }

  /** The 64-bit accumulator, which wraps modulo 2 to the 64. */
  function Accumulator(x: int): nat {
    x % (BASE * BASE)
  }

  function HighAndLow(x: nat): (r: Pair)
    requires x < BASE * BASE
    ensures Unsigned(r.high) * BASE + Unsigned(r.low) == x
  {
    Pair(Wrap(x / BASE), Wrap(x % BASE))
  }

  lemma TimesMonotone(a: nat, b: nat, c: nat)
    requires a <= b
    ensures 0 <= a * c <= b * c
  {
  }

  /** A product of two words leaves room in 64 bits for two more words. */
  lemma ProductFits(a: nat, b: nat, c: nat, d: nat)
    requires a < BASE && b < BASE && c < BASE && d < BASE
    ensures 0 <= a * b + c + d < BASE * BASE
    ensures Accumulator(a * b + c + d) == a * b + c + d
  {
    TimesMonotone(a, BASE - 1, b);
    TimesMonotone(b, BASE - 1, BASE - 1);
    assert a * b + c + d < BASE * BASE;
  }

  function MbiMultiply(a: int32, b: int32): (r: Pair)
    ensures Unsigned(r.high) * BASE + Unsigned(r.low) == Unsigned(a) * Unsigned(b)
  {
    ProductFits(Unsigned(a), Unsigned(b), 0, 0);
    HighAndLow(Accumulator(Unsigned(a) * Unsigned(b)))
  }

  function MbiMultiplyWithAdd(a: int32, b: int32, c: int32): (r: Pair)
    ensures Unsigned(r.high) * BASE + Unsigned(r.low) == Unsigned(a) * Unsigned(b) + Unsigned(c)
  {
    ProductFits(Unsigned(a), Unsigned(b), Unsigned(c), 0);
    HighAndLow(Accumulator(Unsigned(a) * Unsigned(b) + Unsigned(c)))
  }

  function MbiMultiplyWith2Add(a: int32, b: int32, c: int32, d: int32): (r: Pair)
    ensures Unsigned(r.high) * BASE + Unsigned(r.low) == Unsigned(a) * Unsigned(b) + Unsigned(c) + Unsigned(d)
  {
    ProductFits(Unsigned(a), Unsigned(b), Unsigned(c), Unsigned(d));
    HighAndLow(Accumulator(Unsigned(a) * Unsigned(b) + Unsigned(c) + Unsigned(d)))
  }

  /** Quotient (truncated to one word) and remainder of a two-word dividend. */
  datatype Division = Division(quotient: int32, remainder: int32)

  function MbiDivide(a: int32, b: int32, d: int32): (r: Division)
    requires d != 0
    ensures Unsigned(r.remainder) < Unsigned(d)
    ensures Unsigned(r.quotient) * Unsigned(d) + Unsigned(r.remainder) == Unsigned(a) * BASE + Unsigned(b)
      <==> Unsigned(a) < Unsigned(d)
  {
    QuotientFits(Unsigned(a), Unsigned(b), Unsigned(d));
    DivideWords(Unsigned(a) * BASE + Unsigned(b), Unsigned(d))
  }

  function DivideWords(x: nat, d: nat): (r: Division)
    requires 0 < d < BASE && 0 <= x % d < d && 0 <= x / d && x == x / d * d + x % d
    ensures Unsigned(r.remainder) == x % d
    ensures Unsigned(r.quotient) * d + Unsigned(r.remainder) == x <==> x / d < BASE
  {
    var q, r := x / d, x % d;
    WrapIsWord(q);
    WrapIsWord(r);
    SameQuotient(Unsigned(Wrap(q)), q, d);
    Division(Wrap(q), Wrap(r))
  }

  lemma WrapIsWord(x: nat)
    ensures Unsigned(Wrap(x)) == x <==> x < BASE
  {
  }

  lemma SameQuotient(p: nat, q: nat, d: nat)
    requires 0 < d
    ensures p * d == q * d <==> p == q
  {
  }

  /** The quotient of two words by one fits a word exactly when the high word is less than the divisor. */
  lemma QuotientFits(a: nat, b: nat, d: nat)
    requires a < BASE && b < BASE && 0 < d < BASE
    ensures var x := a * BASE + b;
      0 <= x % d < d && x == x / d * d + x % d && 0 <= x / d && (x / d < BASE <==> a < d)
  {
    var q := (a * BASE + b) / d;
    if a < d {
      TimesMonotone(BASE, if q < BASE then BASE else q, d);
    } else {
      TimesMonotone(q, if q < BASE then BASE - 1 else q, d);
    }
  }
}
