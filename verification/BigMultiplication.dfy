/**
 `multiply_to` of big integers: the simple factors, schoolbook multiplication for the others, and what becomes of it
 when the result object is the second factor.
 */
module BigMultiplication {
  import opened Int32
  import opened Limbs
  import opened Magnitudes
  import opened Shifts

  /** The first row of the product, with its last word stored behind it. */
  method FirstRow(x: array<int32>, xo: nat, n: nat, v: int32, r: array<int32>) returns (overflow: int32)
    requires 0 < n && xo + n <= x.Length && n < r.Length && r != x
    modifies r
    ensures Val(r[..n + 1]) == Val(x[xo..xo + n]) * Unsigned(v)
    ensures overflow == r[n]
  {
    hide Val, Pow, Unsigned;
    overflow := MultiplyInto(r, 0, x, xo, n, v);
    ValSnoc(r[0..0 + n], overflow);
    r[n] := overflow;
    assert r[..n + 1] == r[0..0 + n] + [overflow];
  }

  /** One more row adds the product by one more limb of the second factor. */
  lemma RowsSoFar(before: nat, after: nat, x: nat, y: seq<int32>, j: nat)
    requires j < |y| && before == x * Val(y[..j]) && after == before + x * (Unsigned(y[j]) * Pow(j))
    ensures after == x * Val(y[..j + 1])
  {
    hide Val, Pow, Unsigned;
    ValPrefix(y, j);
    Distribute(x, Val(y[..j]), Unsigned(y[j]) * Pow(j));
  }

  /** All rows, for a result in storage of its own. */
  method MultiplyRows(x: array<int32>, xo: nat, n: nat, y: array<int32>, yo: nat, m: nat, r: array<int32>)
    returns (overflow: int32)
    requires 0 < n && 0 < m && xo + n <= x.Length && yo + m <= y.Length && n + m <= r.Length
    requires r != x && r != y
    modifies r
    ensures Val(r[..n + m]) == Val(x[xo..xo + n]) * Val(y[yo..yo + m])
    ensures overflow == r[n + m - 1]
  {
    hide Val, Pow, Unsigned;
    ghost var s, t := x[xo..xo + n], y[yo..yo + m];
    overflow := FirstRow(x, xo, n, y[yo], r);
    FirstLimb(t);
    var j := 1;
    while j < m
      invariant 1 <= j <= m && overflow == r[n + j - 1]
      invariant Val(r[..n + j]) == Val(s) * Val(t[..j])
    {
      ghost var before := Val(r[..n + j]);
      overflow := AddRow(x, xo, n, y[yo + j], r, j);
      RowsSoFar(before, Val(r[..n + j + 1]), Val(s), t, j);
      j := j + 1;
    }
    assert t[..m] == t;
  }

  lemma FirstLimb(t: seq<int32>)
    requires t != []
    ensures Val(t[..1]) == Unsigned(t[0])
  {
    assert t[..1] == [t[0]];
    OneLimb(t[0]);
  }

  /**
   The same rows when the result is the second factor, whose length has just been set to zero: the loop starts behind
   its end `yo - 1` and goes on until it leaves the storage of the factor or of the result.
   */
  method RowsPastTheEnd(x: array<int32>, xo: nat, n: nat, y: array<int32>, yo: nat, r: array<int32>)
    returns (inBounds: bool)
    requires 0 < n && xo + n <= x.Length && yo < y.Length && n < r.Length && r != x && y != x
    modifies r
    ensures !inBounds
  {
    var overflow := FirstRow(x, xo, n, y[yo], r);
    var j, upJ := yo, yo - 1;
    var downK := 1;
    while j != upJ
      invariant upJ < yo <= j < y.Length && 1 <= downK && n + downK <= r.Length
      decreases y.Length - j
    {
      j := j + 1;
      if j == y.Length || n + downK == r.Length {
        return false;
      }
      overflow := AddRow(x, xo, n, y[j], r, downK);
      downK := downK + 1;
    }
    inBounds := true;
  }

  /** A product of numbers without leading zeros has at most one, and its top limb tells. */
  lemma ProductLength(s: seq<int32>, t: seq<int32>, r: seq<int32>)
    requires s != [] && t != [] && Normal(s) && Normal(t) && |r| == |s| + |t| && Val(r) == Val(s) * Val(t)
    ensures var k := |r| - 1;
      if r[k] == 0 then Val(r[..k]) == Val(r) && Normal(r[..k]) else Normal(r)
  {
    hide Val, Pow;
    var n, m, k := |s| - 1, |t| - 1, |r| - 1;
    ValNormalized(s);
    ValNormalized(t);
    PowSum(n, m);
    ProductIsLarge(Pow(n), Val(s), Pow(m), Val(t));
    if r[k] == 0 {
      ZeroOnTop(r);
      ValNormalized(r[..k]);
    }
  }

  lemma ProductIsLarge(p: nat, a: nat, q: nat, b: nat)
    requires p <= a && q <= b
    ensures p * q <= a * b
  {
    TimesMonotone(p, a, q);
    TimesMonotone(q, b, a);
  }

  /**
   `multiply_to_like_human`. The result gets new storage when its own is too small. With the second factor as result
   the loop over its limbs never ends inside the storage.
   */
  method MultiplyToLikeHuman(x: array<int32>, xo: nat, n: nat, y: array<int32>, yo: nat, m: nat, res: array<int32>)
    returns (r: array<int32>, len: nat, inBounds: bool)
    requires 0 < n && 0 < m && xo + n <= x.Length && yo + m <= y.Length && 0 < res.Length && res != x
    requires Normal(x[xo..xo + n]) && Normal(y[yo..yo + m])
    modifies res
    ensures (r == res || fresh(r)) && r.Length == DoubledUntil(res.Length, n + m)
    ensures GoodCapacity(res.Length) ==> GoodCapacity(r.Length)
    ensures inBounds <==> res != y
    ensures inBounds ==> len <= r.Length && Normal(r[..len])
    ensures inBounds ==> Val(r[..len]) == Val(x[xo..xo + n]) * Val(y[yo..yo + m])
  {
    hide Val, Pow, Unsigned, Normal, GoodCapacity;
    ghost var s, t := x[xo..xo + n], y[yo..yo + m];
    r, len := res, 0;
    if res.Length < n + m {
      r := NewZeros(res.Length, n + m);
    }
    if res == y {
      inBounds := RowsPastTheEnd(x, xo, n, y, yo, r);
    } else {
      var overflow := MultiplyRows(x, xo, n, y, yo, m, r);
      ProductLength(s, t, r[..n + m]);
      assert r[..n + m][..n + m - 1] == r[..n + m - 1];
      len := if overflow == 0 then n + m - 1 else n + m;
      inBounds := true;
    }
  }

  /** The magnitude of the product when one factor is one or minus one, or nothing. */
  predicate IsUnit(a: array<int32>, ao: nat, n: nat)
    requires ao + n <= a.Length
    reads a
  {
    n == 1 && a[ao] == 1
  }

  /** The limbs of a number are also found at the front of its storage. */
  ghost predicate AtFront(storage: seq<int32>, o: nat, n: nat) {
    o + n <= |storage| && storage[..n] == storage[o..o + n]
  }

  /**
   When `multiply_to` is right: always for a result of its own. For the second factor as result, when a factor is
   zero or the second factor is one or minus one; for a first factor of one or minus one, if the second factor is
   found at the front of its storage.
   */
  ghost predicate MultipliesRightly(
    same: bool, s: seq<int32>, xneg: bool, storage: seq<int32>, yo: nat, m: nat, yneg: bool)
    requires yo + m <= |storage|
  {
    var t := storage[yo..yo + m];
    !same || s == [] || t == [] ||
    if s == [1] && !(xneg && t == [1] && !yneg) then AtFront(storage, yo, m) else t == [1]
  }

  /** The result is read back as the signed number `p`. */
  ghost predicate IsProduct(inBounds: bool, r: array<int32>, len: nat, negative: bool, p: int)
    reads r
  {
    inBounds && len <= r.Length && SignedValue(negative, Val(r[..len])) == p
  }

  /** The branches for a factor of one or minus one: a copy of the other factor, with its sign. */
  method CopyFactor(a: array<int32>, ao: nat, n: nat, res: array<int32>) returns (r: array<int32>)
    requires ao + n <= a.Length && Normal(a[ao..ao + n])
    modifies res
    ensures (r == res || fresh(r)) && n <= r.Length
    ensures GoodCapacity(a.Length) && GoodCapacity(res.Length) ==> GoodCapacity(r.Length)
    ensures Val(r[..n]) == old(Val(a[ao..ao + n])) <==> res != a || old(AtFront(a[..], ao, n))
    ensures res != a || old(AtFront(a[..], ao, n)) ==> Normal(r[..n])
  {
    hide Val, GoodCapacity, CopyCapacity;
    ghost var before, s := a[..], a[ao..ao + n];
    r := Copy(a, ao, n, res);
    assert before[ao..ao + n] == s;
    if res == a {
      assert r[..n] == before[..n];
      if Val(r[..n]) == Val(s) {
        ValInjective(r[..n], s);
      }
    }
  }

  lemma UnitValue(s: seq<int32>)
    requires s == [1]
    ensures Val(s) == 1
  {
    OneLimb(1);
    UnsignedOne();
  }

  /** The sign rule of a product. */
  lemma SignsMultiply(xneg: bool, x: int, yneg: bool, y: int)
    ensures SignedValue(xneg, x) * SignedValue(yneg, y) == SignedValue(xneg != yneg, x * y)
  {
  }

  /**
   `multiply_to`: zero first, then the factors of one and minus one, then schoolbook multiplication. The result is the
   signed product exactly when the result object is not the second factor, or one of the simple cases still works.
   */
  method MultiplyTo(x: array<int32>, xo: nat, n: nat, xneg: bool, y: array<int32>, yo: nat, m: nat, yneg: bool,
      res: array<int32>)
    returns (r: array<int32>, len: nat, negative: bool, inBounds: bool)
    requires xo + n <= x.Length && yo + m <= y.Length && 0 < res.Length && res != x
    requires Normal(x[xo..xo + n]) && Normal(y[yo..yo + m])
    modifies res
    ensures r == res || fresh(r)
    ensures GoodCapacity(x.Length) && GoodCapacity(y.Length) && GoodCapacity(res.Length) ==> GoodCapacity(r.Length)
    ensures IsProduct(inBounds, r, len, negative,
      old(SignedValue(xneg, Val(x[xo..xo + n])) * SignedValue(yneg, Val(y[yo..yo + m]))))
      <==> old(MultipliesRightly(res == y, x[xo..xo + n], xneg, y[..], yo, m, yneg))
    ensures old(MultipliesRightly(res == y, x[xo..xo + n], xneg, y[..], yo, m, yneg)) ==>
      Normal(r[..len]) && (len == 0 ==> !negative)
  {
    hide Val, Normal, AtFront, GoodCapacity;
    ghost var s, t := x[xo..xo + n], y[yo..yo + m];
    assert y[..][yo..yo + m] == t;
    SignsMultiply(xneg, Val(s), yneg, Val(t));
    UnitsAre(s);
    UnitsAre(t);
    r, len, negative, inBounds := res, 0, false, true;
    if n == 0 || m == 0 {
      NothingMultiplied(r);
    } else if IsUnit(x, xo, n) && !xneg {
      r := CopyFactor(y, yo, m, res);
      len, negative := m, yneg;
    } else if IsUnit(y, yo, m) && !yneg {
      r := CopyFactor(x, xo, n, res);
      len, negative := n, xneg;
    } else if IsUnit(x, xo, n) {
      r := CopyFactor(y, yo, m, res);
      len, negative := m, !yneg;
    } else if IsUnit(y, yo, m) {
      r := CopyFactor(x, xo, n, res);
      len, negative := n, !xneg;
    } else {
      ProductIsPositive(s, t);
      r, len, inBounds := MultiplyToLikeHuman(x, xo, n, y, yo, m, res);
      NothingMultiplied(r);
      negative := xneg != yneg;
    }
  }

  lemma UnitsAre(s: seq<int32>)
    ensures s == [1] ==> Val(s) == 1
    ensures s == [] ==> Val(s) == 0
    ensures s == [1] <==> |s| == 1 && s[0] == 1
  {
    if s == [1] {
      UnitValue(s);
    }
  }

  lemma ProductIsPositive(s: seq<int32>, t: seq<int32>)
    requires s != [] && t != [] && Normal(s) && Normal(t)
    ensures 0 < Val(s) * Val(t)
  {
    hide Val;
    ZeroIsEmpty(s);
    ZeroIsEmpty(t);
    TimesMonotone(1, Val(s), Val(t));
  }

  lemma NothingMultiplied(r: array<int32>)
    ensures Val(r[..0]) == 0 && Normal(r[..0])
  {
  }

  /**
   The failing side: two times three into the object that holds three; and one times nine into the object that holds
   nine, which starts at slot 1 of its storage.
   */
  lemma ResultIsAFactor(two: seq<int32>, one: seq<int32>, front: seq<int32>, behind: seq<int32>)
    requires two == [2] && one == [1] && front == [3, 0, 0, 0] && behind == [5, 9, 0, 0]
    ensures Normal(two) && Normal(one) && Normal(front[0..1]) && Normal(behind[1..2])
    ensures !MultipliesRightly(true, two, false, front, 0, 1, false)
    ensures !MultipliesRightly(true, one, false, behind, 1, 1, false)
    ensures MultipliesRightly(false, two, false, front, 0, 1, false)
    ensures MultipliesRightly(true, one, false, front, 0, 1, false)
  {
    assert two[0] == 2 && one[0] == 1;
    assert front[0..1] == [3] && front[..1] == [3] && behind[1..2] == [9] && behind[..1] == [5];
    assert behind[..1][0] != behind[1..2][0];
  }
}
