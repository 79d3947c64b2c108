/** Little-endian limb strings as natural numbers, and the limb loops that compute on them. */
module Magnitudes {
  import opened Int32
  import opened Limbs

  function Pow(k: nat): (p: nat)
    ensures 0 < p
  {
    if k == 0 then 1 else BASE * Pow(k - 1)
  }

  /** The number that the limbs stand for, least significant limb first. */
  function Val(s: seq<int32>): nat {
    if s == [] then 0 else Val(s[..|s| - 1]) + Unsigned(s[|s| - 1]) * Pow(|s| - 1)
  }

  lemma ValEmpty()
    ensures Val([]) == 0 && Pow(0) == 1
  {
  }

  lemma PowNext(k: nat)
    ensures Pow(k + 1) == BASE * Pow(k)
  {
  }

  lemma ValSnoc(s: seq<int32>, d: int32)
    ensures Val(s + [d]) == Val(s) + Unsigned(d) * Pow(|s|)
  {
  }

  lemma ValPrefix(s: seq<int32>, k: nat)
    requires k < |s|
    ensures Val(s[..k + 1]) == Val(s[..k]) + Unsigned(s[k]) * Pow(k)
  {
    assert s[..k + 1] == s[..k] + [s[k]];
    ValSnoc(s[..k], s[k]);
  }

  lemma {:induction false} ValBound(s: seq<int32>)
    ensures Val(s) < Pow(|s|)
  {
    if s != [] {
      var n := |s| - 1;
      ValBound(s[..n]);
      TimesMonotone(Unsigned(s[n]), BASE - 1, Pow(n));
    }
  }

  lemma {:induction false} ValConcat(s: seq<int32>, t: seq<int32>)
    ensures Val(s + t) == Val(s) + Pow(|s|) * Val(t)
  {
    if t == [] {
      assert s + t == s;
    } else {
      var n := |t| - 1;
      assert s + t == s + t[..n] + [t[n]];
      ValSnoc(s + t[..n], t[n]);
      ValConcat(s, t[..n]);
      PowSum(|s|, n);
      Distribute(Pow(|s|), Val(t[..n]), Unsigned(t[n]) * Pow(n));
      Associate(Unsigned(t[n]), Pow(|s|), Pow(n));
    }
  }

  lemma {:induction false} PowSum(a: nat, b: nat)
    ensures Pow(a + b) == Pow(a) * Pow(b)
  {
    if b > 0 {
      PowSum(a, b - 1);
      Associate(BASE, Pow(a), Pow(b - 1));
    }
  }

  lemma Distribute(a: int, b: int, c: int)
    ensures a * (b + c) == a * b + a * c
  {
  }

  lemma Associate(a: int, b: int, c: int)
    ensures a * (b * c) == b * (a * c)
  {
  }

  /** One column of an addition, weighted by its place. */
  lemma AddColumn(r: int, x: int, y: int, p: int, limb: int, carry: int, a: int, b: int, inc: int)
    requires r + p * inc == x + y
    requires limb + BASE * carry == a + b + inc
    ensures (r + limb * p) + (BASE * p) * carry == (x + a * p) + (y + b * p)
  {
  }

  /** One more column of a sum, of which the limbs `r` are there. */
  lemma ColumnAdded(r: seq<int32>, x: seq<int32>, y: seq<int32>, limb: int32, carry: nat, inc: nat)
    requires |r| < |x| && |r| < |y| && Val(r) + Pow(|r|) * inc == Val(x[..|r|]) + Val(y[..|r|])
    requires Unsigned(limb) + BASE * carry == Unsigned(x[|r|]) + Unsigned(y[|r|]) + inc
    ensures Val(r + [limb]) + Pow(|r| + 1) * carry == Val(x[..|r| + 1]) + Val(y[..|r| + 1])
  {
    hide Val, Pow, Unsigned;
    var k := |r|;
    AddColumn(Val(r), Val(x[..k]), Val(y[..k]), Pow(k), Unsigned(limb), carry, Unsigned(x[k]), Unsigned(y[k]), inc);
    PowNext(k);
    ValPrefix(x, k);
    ValPrefix(y, k);
    ValSnoc(r, limb);
  }

  /** Column `k` of a sum: the primitive is chosen by the carry of the column before. */
  method AddAt(r: array<int32>, ro: nat, k: nat, u: int32, v: int32, inc: bool,
      ghost x: seq<int32>, ghost y: seq<int32>)
    returns (carry: bool)
    requires ro + k < r.Length && k < |x| && k < |y| && u == x[k] && v == y[k]
    requires Val(r[ro..ro + k]) + Pow(k) * Bit(inc) == Val(x[..k]) + Val(y[..k])
    modifies r
    ensures Val(r[ro..ro + (k + 1)]) + Pow(k + 1) * Bit(carry) == Val(x[..k + 1]) + Val(y[..k + 1])
    ensures forall i :: 0 <= i < r.Length && i != ro + k ==> r[i] == old(r[i])
  {
    hide Val, Pow, Unsigned, MbiAdd, MbiAddWithInc;
    ghost var done := r[ro..ro + k];
    var c := if inc then MbiAddWithInc(u, v) else MbiAdd(u, v);
    ColumnAdded(done, x, y, c.limb, Bit(c.carry), Bit(inc));
    r[ro + k] := c.limb;
    assert r[ro..ro + (k + 1)] == done + [c.limb];
    carry := c.carry;
  }

  /**
   Adds `n` limbs column by column, choosing the primitive by the carry of the last column. The result may
   overwrite an operand from the same place or from further up.
   */
  method AddInto(r: array<int32>, ro: nat, a: array<int32>, ao: nat, b: array<int32>, bo: nat, n: nat)
    returns (inc: bool)
    requires ro + n <= r.Length && ao + n <= a.Length && bo + n <= b.Length
    requires (r == a ==> ro <= ao) && (r == b ==> ro <= bo)
    modifies r
    ensures Val(r[ro..ro + n]) + Pow(n) * Bit(inc) == old(Val(a[ao..ao + n]) + Val(b[bo..bo + n]))
    ensures forall i :: 0 <= i < r.Length && !(ro <= i < ro + n) ==> r[i] == old(r[i])
  {
    hide Val, Pow, Unsigned;
    ghost var x, y := a[ao..ao + n], b[bo..bo + n];
    inc := false;
    var k := 0;
    ValEmpty();
    assert r[ro..ro] == x[..0] == y[..0] == [];
    while k < n
      invariant 0 <= k <= n
      invariant Val(r[ro..ro + k]) + Pow(k) * Bit(inc) == Val(x[..k]) + Val(y[..k])
      invariant forall i :: k <= i < n ==> a[ao + i] == x[i] && b[bo + i] == y[i]
      invariant forall i :: 0 <= i < r.Length && !(ro <= i < ro + k) ==> r[i] == old(r[i])
    {
      inc := AddAt(r, ro, k, a[ao + k], b[bo + k], inc, x, y);
      k := k + 1;
    }
    assert x[..n] == x && y[..n] == y;
  }

  /**
   Copies `n` limbs while a carry is added: with `mbi_inc` as long as there is one, unchanged from then on.
   */
  method CarryInto(r: array<int32>, ro: nat, a: array<int32>, ao: nat, n: nat, carry: bool) returns (inc: bool)
    requires ro + n <= r.Length && ao + n <= a.Length && (r == a ==> ro <= ao)
    modifies r
    ensures Val(r[ro..ro + n]) + Pow(n) * Bit(inc) == old(Val(a[ao..ao + n])) + Bit(carry)
    ensures forall i :: 0 <= i < r.Length && !(ro <= i < ro + n) ==> r[i] == old(r[i])
  {
    hide Val, Pow, Unsigned, MbiInc;
    ghost var x := a[ao..ao + n];
    inc := carry;
    var k := 0;
    ValEmpty();
    assert r[ro..ro] == x[..0] == [];
    while k < n
      invariant 0 <= k <= n
      invariant Val(r[ro..ro + k]) + Pow(k) * Bit(inc) == Val(x[..k]) + Bit(carry)
      invariant forall i :: k <= i < n ==> a[ao + i] == x[i]
      invariant forall i :: 0 <= i < r.Length && !(ro <= i < ro + k) ==> r[i] == old(r[i])
    {
      var c := if inc then MbiInc(a[ao + k]) else Carried(false, a[ao + k]);
      AddColumn(Val(r[ro..ro + k]), Val(x[..k]), Bit(carry), Pow(k), Unsigned(c.limb), Bit(c.carry), Unsigned(x[k]), 0,
                Bit(inc));
      PowNext(k);
      ValPrefix(x, k);
      ValSnoc(r[ro..ro + k], c.limb);
      ghost var done := r[ro..ro + k];
      r[ro + k] := c.limb;
      assert r[ro..ro + k + 1] == done + [c.limb];
      inc := c.carry;
      k := k + 1;
    }
    assert x[..n] == x;
  }

  /** One column of a subtraction. */
  lemma SubtractColumn(r: int, x: int, y: int, p: int, limb: int, borrow: int, a: int, b: int, dec: int)
    requires r - p * dec == x - y
    requires limb - BASE * borrow == a - b - dec
    ensures (r + limb * p) - (BASE * p) * borrow == (x + a * p) - (y + b * p)
  {
  }

  /** One more column of a difference. */
  lemma ColumnSubtracted(r: seq<int32>, x: seq<int32>, y: seq<int32>, limb: int32, borrow: nat, dec: nat)
    requires |r| < |x| && |r| < |y| && Val(r) - Pow(|r|) * dec == Val(x[..|r|]) - Val(y[..|r|])
    requires Unsigned(limb) - BASE * borrow == Unsigned(x[|r|]) - Unsigned(y[|r|]) - dec
    ensures Val(r + [limb]) - Pow(|r| + 1) * borrow == Val(x[..|r| + 1]) - Val(y[..|r| + 1])
  {
    hide Val, Pow, Unsigned;
    var k := |r|;
    SubtractColumn(Val(r), Val(x[..k]), Val(y[..k]), Pow(k), Unsigned(limb), borrow, Unsigned(x[k]), Unsigned(y[k]),
                   dec);
    PowNext(k);
    ValPrefix(x, k);
    ValPrefix(y, k);
    ValSnoc(r, limb);
  }

  /** Column `k` of a difference. */
  method SubtractAt(r: array<int32>, ro: nat, k: nat, u: int32, v: int32, dec: bool,
      ghost x: seq<int32>, ghost y: seq<int32>)
    returns (borrow: bool)
    requires ro + k < r.Length && k < |x| && k < |y| && u == x[k] && v == y[k]
    requires Val(r[ro..ro + k]) - Pow(k) * Bit(dec) == Val(x[..k]) - Val(y[..k])
    modifies r
    ensures Val(r[ro..ro + (k + 1)]) - Pow(k + 1) * Bit(borrow) == Val(x[..k + 1]) - Val(y[..k + 1])
    ensures forall i :: 0 <= i < r.Length && i != ro + k ==> r[i] == old(r[i])
  {
    hide Val, Pow, Unsigned, MbiSubtract, MbiSubtractWithDec;
    ghost var done := r[ro..ro + k];
    var c := if dec then MbiSubtractWithDec(u, v) else MbiSubtract(u, v);
    ColumnSubtracted(done, x, y, c.limb, Bit(c.carry), Bit(dec));
    r[ro + k] := c.limb;
    assert r[ro..ro + (k + 1)] == done + [c.limb];
    borrow := c.carry;
  }

  /** Subtracts `n` limbs column by column, choosing the primitive by the borrow of the last column. */
  method SubtractInto(r: array<int32>, ro: nat, a: array<int32>, ao: nat, b: array<int32>, bo: nat, n: nat)
    returns (dec: bool)
    requires ro + n <= r.Length && ao + n <= a.Length && bo + n <= b.Length
    requires (r == a ==> ro <= ao) && (r == b ==> ro <= bo)
    modifies r
    ensures Val(r[ro..ro + n]) - Pow(n) * Bit(dec) == old(Val(a[ao..ao + n]) - Val(b[bo..bo + n]))
    ensures forall i :: 0 <= i < r.Length && !(ro <= i < ro + n) ==> r[i] == old(r[i])
  {
    hide Val, Pow, Unsigned;
    ghost var x, y := a[ao..ao + n], b[bo..bo + n];
    dec := false;
    var k := 0;
    ValEmpty();
    assert r[ro..ro] == x[..0] == y[..0] == [];
    while k < n
      invariant 0 <= k <= n
      invariant Val(r[ro..ro + k]) - Pow(k) * Bit(dec) == Val(x[..k]) - Val(y[..k])
      invariant forall i :: k <= i < n ==> a[ao + i] == x[i] && b[bo + i] == y[i]
      invariant forall i :: 0 <= i < r.Length && !(ro <= i < ro + k) ==> r[i] == old(r[i])
    {
      dec := SubtractAt(r, ro, k, a[ao + k], b[bo + k], dec, x, y);
      k := k + 1;
    }
    assert x[..n] == x && y[..n] == y;
  }

  /** One column of a product row: `low` and `high` are the two words of `a * v + z + carry`. */
  lemma ProductColumn(r: int, x: int, v: int, z: int, p: int, low: int, high: int, a: int, zk: int, carry: int)
    requires r + p * carry == x * v + z
    requires high * BASE + low == a * v + zk + carry
    ensures (r + low * p) + (BASE * p) * high == (x + a * p) * v + (z + zk * p)
  {
  }

  /** A first row of a product: `n` limbs of `a` times the word `v`; the high word of the last column is returned. */
  method MultiplyInto(r: array<int32>, ro: nat, a: array<int32>, ao: nat, n: nat, v: int32) returns (overflow: int32)
    requires 0 < n && ro + n <= r.Length && ao + n <= a.Length && (r == a ==> ro <= ao)
    modifies r
    ensures Val(r[ro..ro + n]) + Pow(n) * Unsigned(overflow) == old(Val(a[ao..ao + n])) * Unsigned(v)
    ensures forall i :: 0 <= i < r.Length && !(ro <= i < ro + n) ==> r[i] == old(r[i])
  {
    hide Val, Pow, Unsigned, MbiMultiply, MbiMultiplyWithAdd;
    ghost var x := a[ao..ao + n];
    overflow := 0;
    UnsignedZero();
    var k := 0;
    ValEmpty();
    assert r[ro..ro] == x[..0] == [];
    while k < n
      invariant 0 <= k <= n
      invariant Val(r[ro..ro + k]) + Pow(k) * Unsigned(overflow) == Val(x[..k]) * Unsigned(v)
      invariant k == 0 ==> overflow == 0
      invariant forall i :: k <= i < n ==> a[ao + i] == x[i]
      invariant forall i :: 0 <= i < r.Length && !(ro <= i < ro + k) ==> r[i] == old(r[i])
    {
      var c := if k == 0 then MbiMultiply(a[ao + k], v) else MbiMultiplyWithAdd(a[ao + k], v, overflow);
      ProductColumn(Val(r[ro..ro + k]), Val(x[..k]), Unsigned(v), 0, Pow(k), Unsigned(c.low), Unsigned(c.high),
                    Unsigned(x[k]), 0, Unsigned(overflow));
      PowNext(k);
      ValPrefix(x, k);
      ValSnoc(r[ro..ro + k], c.low);
      ghost var done := r[ro..ro + k];
      r[ro + k] := c.low;
      assert r[ro..ro + k + 1] == done + [c.low];
      overflow := c.high;
      k := k + 1;
    }
    assert x[..n] == x;
  }

  lemma UnsignedZero()
    ensures Unsigned(0) == 0
  {
  }

  lemma UnsignedOne()
    ensures Unsigned(1) == 1
  {
  }

  /** A later row: the product is added to the limbs that are already there. */
  method MultiplyAddInto(r: array<int32>, ro: nat, a: array<int32>, ao: nat, n: nat, v: int32) returns (overflow: int32)
    requires 0 < n && ro + n <= r.Length && ao + n <= a.Length && r != a
    modifies r
    ensures Val(r[ro..ro + n]) + Pow(n) * Unsigned(overflow) ==
      old(Val(a[ao..ao + n])) * Unsigned(v) + old(Val(r[ro..ro + n]))
    ensures forall i :: 0 <= i < r.Length && !(ro <= i < ro + n) ==> r[i] == old(r[i])
  {
    hide Val, Pow, Unsigned, MbiMultiplyWithAdd, MbiMultiplyWith2Add;
    ghost var x, z := a[ao..ao + n], r[ro..ro + n];
    overflow := 0;
    UnsignedZero();
    var k := 0;
    ValEmpty();
    assert r[ro..ro] == x[..0] == z[..0] == [];
    while k < n
      invariant 0 <= k <= n
      invariant Val(r[ro..ro + k]) + Pow(k) * Unsigned(overflow) == Val(x[..k]) * Unsigned(v) + Val(z[..k])
      invariant k == 0 ==> overflow == 0
      invariant forall i :: k <= i < n ==> r[ro + i] == z[i]
      invariant forall i :: 0 <= i < r.Length && !(ro <= i < ro + k) ==> r[i] == old(r[i])
    {
      var c := if k == 0 then MbiMultiplyWithAdd(a[ao + k], v, r[ro + k])
               else MbiMultiplyWith2Add(a[ao + k], v, overflow, r[ro + k]);
      ProductColumn(Val(r[ro..ro + k]), Val(x[..k]), Unsigned(v), Val(z[..k]), Pow(k), Unsigned(c.low),
                    Unsigned(c.high), Unsigned(x[k]), Unsigned(z[k]), Unsigned(overflow));
      PowNext(k);
      ValPrefix(x, k);
      ValPrefix(z, k);
      ValSnoc(r[ro..ro + k], c.low);
      ghost var done := r[ro..ro + k];
      r[ro + k] := c.low;
      assert r[ro..ro + k + 1] == done + [c.low];
      overflow := c.high;
      k := k + 1;
    }
    assert x[..n] == x && z[..n] == z;
  }

  lemma RowAdded(low: int, z: int, row: int, pj: int, pn: int, overflow: int, x: int, v: int)
    requires row + pn * overflow == x * v + z
    ensures low + pj * (row + overflow * pn) == low + pj * z + x * (v * pj)
  {
  }

  /** Row `j` adds the product of `a` and one word at place `j`, and writes one limb more than there was. */
  method AddRow(a: array<int32>, ao: nat, n: nat, v: int32, res: array<int32>, j: nat) returns (overflow: int32)
    requires 0 < n && ao + n <= a.Length && n + j < res.Length && res != a
    modifies res
    ensures Val(res[..n + j + 1]) == old(Val(res[..n + j])) + Val(a[ao..ao + n]) * (Unsigned(v) * Pow(j))
    ensures overflow == res[n + j]
    ensures forall i :: n + j < i < res.Length ==> res[i] == old(res[i])
  {
    hide Val, Pow, Unsigned;
    ghost var low, z := res[..j], res[j..j + n];
    assert res[..n + j] == low + z;
    ValConcat(low, z);
    overflow := MultiplyAddInto(res, j, a, ao, n, v);
    ghost var row := res[j..j + n];
    res[j + n] := overflow;
    assert res[..n + j + 1] == low + (row + [overflow]);
    ValSnoc(row, overflow);
    ValConcat(low, row + [overflow]);
    RowAdded(Val(low), Val(z), Val(row), Pow(j), Pow(n), Unsigned(overflow), Val(a[ao..ao + n]), Unsigned(v));
  }

  lemma ValCons(d: int32, s: seq<int32>)
    ensures Val([d] + s) == Unsigned(d) + BASE * Val(s)
  {
    ValConcat([d], s);
    ValSnoc([], d);
    assert [] + [d] == [d];
    ValEmpty();
    PowNext(0);
  }

  /** One step of the division by a word: the remainder so far is the high word of the next dividend. */
  lemma DivisionStep(high: int, limb: int, q: int, d: int, rem: int, qk: int, rem': int)
    requires high == q * d + rem
    requires qk * d + rem' == rem * BASE + limb
    ensures limb + BASE * high == (qk + BASE * q) * d + rem'
  {
  }

  /** Divides `n` limbs in place by one word, from the top limb down, and returns the remainder. */
  method DivideOneWord(a: array<int32>, ao: nat, n: nat, divisor: int32) returns (remainder: int32)
    requires ao + n <= a.Length && divisor != 0
    modifies a
    ensures old(Val(a[ao..ao + n])) == Val(a[ao..ao + n]) * Unsigned(divisor) + Unsigned(remainder)
    ensures Unsigned(remainder) < Unsigned(divisor)
    ensures forall i :: 0 <= i < a.Length && !(ao <= i < ao + n) ==> a[i] == old(a[i])
  {
    DivisorIsPositive(divisor);
    hide Val, Pow, Unsigned, MbiDivide;
    ghost var x := a[ao..ao + n];
    remainder := 0;
    UnsignedZero();
    ValEmpty();
    var i := n;
    assert x[n..] == a[ao + n..ao + n] == [];
    while i > 0
      invariant 0 <= i <= n
      invariant Val(x[i..]) == Val(a[ao + i..ao + n]) * Unsigned(divisor) + Unsigned(remainder)
      invariant Unsigned(remainder) < Unsigned(divisor)
      invariant forall k :: 0 <= k < i ==> a[ao + k] == x[k]
      invariant forall k :: 0 <= k < a.Length && !(ao <= k < ao + n) ==> a[k] == old(a[k])
    {
      i := i - 1;
      ghost var done := a[ao + i + 1..ao + n];
      var c := MbiDivide(remainder, a[ao + i], divisor);
      DivisionStep(Val(x[i + 1..]), Unsigned(x[i]), Val(done), Unsigned(divisor), Unsigned(remainder),
                   Unsigned(c.quotient), Unsigned(c.remainder));
      a[ao + i] := c.quotient;
      assert a[ao + i..ao + n] == [c.quotient] + done;
      assert x[i..] == [x[i]] + x[i + 1..];
      ValCons(c.quotient, done);
      ValCons(x[i], x[i + 1..]);
      remainder := c.remainder;
    }
    assert x[0..] == x;
  }

  lemma DivisorIsPositive(d: int32)
    ensures d != 0 <==> 0 < Unsigned(d)
  {
  }

  /** Multiplies `n` limbs in place by one word, starting with the word `seed` to be added. */
  method MultiplyWithSeed(a: array<int32>, ao: nat, n: nat, v: int32, seed: int32) returns (overflow: int32)
    requires ao + n <= a.Length
    modifies a
    ensures Val(a[ao..ao + n]) + Pow(n) * Unsigned(overflow) == old(Val(a[ao..ao + n])) * Unsigned(v) + Unsigned(seed)
    ensures forall i :: 0 <= i < a.Length && !(ao <= i < ao + n) ==> a[i] == old(a[i])
  {
    hide Val, Pow, Unsigned, MbiMultiplyWithAdd;
    ghost var x := a[ao..ao + n];
    overflow := seed;
    var k := 0;
    ValEmpty();
    assert a[ao..ao] == x[..0] == [];
    while k < n
      invariant 0 <= k <= n
      invariant Val(a[ao..ao + k]) + Pow(k) * Unsigned(overflow) == Val(x[..k]) * Unsigned(v) + Unsigned(seed)
      invariant forall i :: k <= i < n ==> a[ao + i] == x[i]
      invariant forall i :: 0 <= i < a.Length && !(ao <= i < ao + k) ==> a[i] == old(a[i])
    {
      var c := MbiMultiplyWithAdd(a[ao + k], v, overflow);
      ProductColumn(Val(a[ao..ao + k]), Val(x[..k]), Unsigned(v), Unsigned(seed), Pow(k), Unsigned(c.low),
                    Unsigned(c.high), Unsigned(x[k]), 0, Unsigned(overflow));
      PowNext(k);
      ValPrefix(x, k);
      ValSnoc(a[ao..ao + k], c.low);
      ghost var done := a[ao..ao + k];
      a[ao + k] := c.low;
      assert a[ao..ao + k + 1] == done + [c.low];
      overflow := c.high;
      k := k + 1;
    }
    assert x[..n] == x;
  }

  /** Dividing by a word and multiplying back with the remainder as seed restores every limb. */
  method DivideThenMultiply(a: array<int32>, ao: nat, n: nat, divisor: int32) returns (overflow: int32)
    requires ao + n <= a.Length && divisor != 0
    modifies a
    ensures overflow == 0 && a[..] == old(a[..])
  {
    hide Val, Pow, Unsigned;
    ghost var before := a[..];
    ghost var x := a[ao..ao + n];
    var remainder := DivideOneWord(a, ao, n, divisor);
    overflow := MultiplyWithSeed(a, ao, n, divisor, remainder);
    ghost var y := a[ao..ao + n];
    ValBound(x);
    ValBound(y);
    SameDigits(Val(y), Val(x), Unsigned(overflow), 0, Pow(n));
    UnsignedZero();
    UnsignedInjective(overflow, 0);
    ValInjective(x, y);
    assert forall i :: 0 <= i < a.Length ==> a[i] == before[i] by {
      assert forall i :: ao <= i < ao + n ==> a[i] == y[i - ao] && before[i] == x[i - ao];
    }
  }

  lemma SameDigits(v: nat, w: nat, a: nat, b: nat, p: nat)
    requires v < p && w < p && v + a * p == w + b * p
    ensures a == b && v == w
  {
    if a < b {
      TimesMonotone(a + 1, b, p);
    } else if b < a {
      TimesMonotone(b + 1, a, p);
    }
  }

  lemma UnsignedInjective(x: int32, y: int32)
    requires Unsigned(x) == Unsigned(y)
    ensures x == y
  {
  }

  /** Two limb strings of one length with one value are the same. */
  lemma {:induction false} ValInjective(s: seq<int32>, t: seq<int32>)
    requires |s| == |t| && Val(s) == Val(t)
    ensures s == t
  {
    if s != [] {
      hide Val, Unsigned, Pow;
      var n := |s| - 1;
      assert s[..n + 1] == s && t[..n + 1] == t;
      ValPrefix(s, n);
      ValPrefix(t, n);
      ValBound(s[..n]);
      ValBound(t[..n]);
      SameDigits(Val(s[..n]), Val(t[..n]), Unsigned(s[n]), Unsigned(t[n]), Pow(n));
      UnsignedInjective(s[n], t[n]);
      ValInjective(s[..n], t[..n]);
      assert s == s[..n] + [s[n]] && t == t[..n] + [t[n]];
    }
  }

  /** The top limb is not zero exactly when the value needs all the limbs. */
  lemma ValNormalized(s: seq<int32>)
    requires s != []
    ensures s[|s| - 1] != 0 <==> Pow(|s| - 1) <= Val(s)
  {
    var n := |s| - 1;
    ValBound(s[..n]);
    DivisorIsPositive(s[n]);
    if s[n] != 0 {
      TimesMonotone(1, Unsigned(s[n]), Pow(n));
    }
  }

  /** No leading zero limb. */
  ghost predicate Normal(s: seq<int32>) {
    s != [] ==> s[|s| - 1] != 0
  }

  lemma {:induction false} PowGrows(a: nat, b: nat)
    requires a <= b
    ensures Pow(a) <= Pow(b)
  {
    if a < b {
      PowGrows(a, b - 1);
    }
  }

  /** A leading zero limb adds nothing. */
  lemma ZeroOnTop(q: seq<int32>)
    requires q != [] && q[|q| - 1] == 0
    ensures Val(q) == Val(q[..|q| - 1])
  {
  }

  /** `slice_copy` of a number's limbs into storage of its own. */
  method CopyLimbs(a: array<int32>, ao: nat, n: nat, capacity: nat) returns (c: array<int32>)
    requires ao + n <= a.Length && n <= capacity
    ensures fresh(c) && c.Length == capacity && c[..n] == a[ao..ao + n]
  {
    c := new int32[capacity](k reads a => if 0 <= k < n && ao + k < a.Length then a[ao + k] else 0);
  }

  /** The least capacity that doubling reaches from `actual` and that is large enough. */
  function DoubledUntil(actual: nat, needed: nat): (capacity: nat)
    requires 0 < actual
    ensures actual <= capacity && needed <= capacity && (capacity == actual || capacity < 2 * needed)
    decreases needed - actual
  {
    if needed <= actual then actual else DoubledUntil(2 * actual, needed)
  }

  ghost predicate PowerOfTwo(c: nat) {
    c == 1 || (0 < c && c % 2 == 0 && PowerOfTwo(c / 2))
  }

  /** What every capacity is: a power of two, and not less than four. */
  ghost predicate GoodCapacity(c: nat) {
    4 <= c && PowerOfTwo(c)
  }

  lemma FourIsGood()
    ensures GoodCapacity(4)
  {
    assert PowerOfTwo(1) && PowerOfTwo(2);
  }

  lemma TwiceIsGood(c: nat)
    ensures GoodCapacity(c) ==> GoodCapacity(2 * c)
  {
  }

  lemma {:induction false} DoubledIsGood(actual: nat, needed: nat)
    requires 0 < actual
    ensures GoodCapacity(actual) ==> GoodCapacity(DoubledUntil(actual, needed))
    decreases needed - actual
  {
    hide GoodCapacity;
    if actual < needed {
      TwiceIsGood(actual);
      DoubledIsGood(2 * actual, needed);
    }
  }

  /** `capacity_from_lower_bound`: the least power of two that is neither below `actual` nor below `needed`. */
  method CapacityFromLowerBound(actual: nat, needed: nat) returns (capacity: nat)
    requires 0 < actual
    ensures capacity == DoubledUntil(actual, needed)
    ensures actual <= capacity && needed <= capacity && (capacity == actual || capacity / 2 < needed)
    ensures GoodCapacity(actual) ==> GoodCapacity(capacity)
  {
    DoubledIsGood(actual, needed);
    capacity := actual;
    while capacity < needed
      invariant 0 < capacity && DoubledUntil(capacity, needed) == DoubledUntil(actual, needed)
    {
      capacity := 2 * capacity;
    }
  }

  /** New storage, all zero. */
  method NewZeros(actual: nat, needed: nat) returns (r: array<int32>)
    requires 0 < actual
    ensures fresh(r) && r.Length == DoubledUntil(actual, needed)
    ensures GoodCapacity(actual) ==> GoodCapacity(r.Length)
    ensures forall i :: 0 <= i < r.Length ==> r[i] == 0
  {
    var capacity := CapacityFromLowerBound(actual, needed);
    r := new int32[capacity](_ => 0);
  }

  /** The capacity that halving reaches from `actual` and that is still large enough; it stops at four. */
  function HalvedTo(actual: nat, needed: nat): (capacity: nat)
    requires 0 < needed <= actual
    ensures needed <= capacity <= actual && (capacity / 2 < needed || capacity / 2 == 2)
  {
    if actual / 2 < needed || actual / 2 == 2 then actual else HalvedTo(actual / 2, needed)
  }

  lemma {:induction false} HalvedIsGood(actual: nat, needed: nat)
    requires 0 < needed <= actual
    ensures GoodCapacity(actual) ==> GoodCapacity(HalvedTo(actual, needed))
  {
    if actual / 2 >= needed && actual / 2 != 2 {
      assert !PowerOfTwo(3);
      HalvedIsGood(actual / 2, needed);
    }
  }

  /** `capacity_from_upper_bound`: from a power of two, the least one from four up that is not below `needed`. */
  method CapacityFromUpperBound(actual: nat, needed: nat) returns (capacity: nat)
    requires 0 < needed <= actual
    ensures capacity == HalvedTo(actual, needed) && needed <= capacity <= actual
    ensures GoodCapacity(actual) ==> GoodCapacity(capacity) && (capacity == 4 || capacity / 2 < needed)
  {
    HalvedIsGood(actual, needed);
    capacity := actual;
    var v := capacity / 2;
    while v >= needed && v != 2
      invariant needed <= capacity && v == capacity / 2 && HalvedTo(capacity, needed) == HalvedTo(actual, needed)
    {
      capacity := v;
      v := capacity / 2;
    }
  }

  /** The capacity of a number after a copy of `n` limbs, from storage for `other`, into storage for `own`. */
  function CopyCapacity(own: nat, other: nat, n: nat): (capacity: nat)
    requires n <= other
    ensures n <= capacity && 0 < capacity && (n <= own && 0 < own ==> capacity == own)
    ensures own < n ==> capacity <= other && (capacity / 2 < n || capacity / 2 == 2)
  {
    if own < n then HalvedTo(other, n) else if own == 0 then 4 else own
  }

  /**
   `copy`. The start is set to the front first, so a number that is copied into itself is not moved there: its limbs
   are read from the front.
   */
  method Copy(a: array<int32>, ao: nat, n: nat, res: array<int32>) returns (r: array<int32>)
    requires ao + n <= a.Length
    modifies res
    ensures (r == res || fresh(r)) && r.Length == CopyCapacity(res.Length, a.Length, n)
    ensures r == res <==> n <= res.Length && 0 < res.Length
    ensures GoodCapacity(a.Length) && (res.Length == 0 || GoodCapacity(res.Length)) ==> GoodCapacity(r.Length)
    ensures if res == a && 0 < a.Length then r == res && r[..] == old(res[..]) else r[..n] == old(a[ao..ao + n])
  {
    hide GoodCapacity, HalvedTo;
    FourIsGood();
    r := res;
    if res == a && 0 < a.Length {
      return;
    }
    if res.Length < n {
      var capacity := CapacityFromUpperBound(a.Length, n);
      r := new int32[capacity](_ => 0);
    } else if res.Length == 0 {
      r := new int32[4](_ => 0);
    }
    ghost var s := a[ao..ao + n];
    var i := 0;
    while i < n
      invariant 0 <= i <= n && forall k :: 0 <= k < i ==> r[k] == s[k]
    {
      r[i] := a[ao + i];
      i := i + 1;
    }
    assert r[..n] == s;
  }

  /** More limbs mean a larger number. */
  lemma LongerIsLarger(s: seq<int32>, t: seq<int32>)
    requires Normal(t) && |s| < |t|
    ensures Val(s) < Val(t)
  {
    ValBound(s);
    ValNormalized(t);
    PowGrows(|s|, |t| - 1);
  }

  lemma OneLimb(d: int32)
    ensures Val([d]) == Unsigned(d)
  {
  }

  lemma ZeroIsEmpty(s: seq<int32>)
    requires Normal(s)
    ensures Val(s) == 0 <==> s == []
  {
  }

  /** The limbs of a number, without leading zero. */
  ghost function LimbsOf(n: nat): (s: seq<int32>)
    ensures n == 0 <==> s == []
    ensures Normal(s) && Val(s) == n
  {
    if n == 0 then []
    else
      LimbsFit(n);
      ValCons(Wrap(n % BASE), LimbsOf(n / BASE));
      [Wrap(n % BASE)] + LimbsOf(n / BASE)
  }

  lemma LimbsFit(n: nat)
    ensures Unsigned(Wrap(n % BASE)) == n % BASE && 0 <= n / BASE && n == n % BASE + BASE * (n / BASE)
    ensures 0 < n < BASE ==> Wrap(n % BASE) != 0
    ensures 0 < n ==> n / BASE < n
  {
  }

  /** A number has only one limb string without leading zero. */
  lemma LimbsAreUnique(s: seq<int32>)
    requires Normal(s)
    ensures s == LimbsOf(Val(s))
  {
    hide Val, LimbsOf;
    var t := LimbsOf(Val(s));
    if |s| < |t| {
      LongerIsLarger(s, t);
    } else if |t| < |s| {
      LongerIsLarger(t, s);
    } else {
      ValInjective(s, t);
    }
  }

  /** The number that a sign and a magnitude stand for. */
  function SignedValue(negative: bool, x: int): int {
    if negative then -x else x
  }
}
