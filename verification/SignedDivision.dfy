/** `divide_to` of big integers with their signs: the division of the magnitudes and the correction that follows. */
module SignedDivision {
  import opened Int32
  import opened Limbs
  import opened Magnitudes
  import opened BigAddition
  import opened BigDivision
  import opened BigSubtraction

  /** Quotient and remainder of signed numbers. */
  datatype Signed = Signed(quotient: int, remainder: int)

  /** The signs put back after the division of the magnitudes `x` and `y` into `q` and `r`. */
  function SignCorrection(xNegative: bool, yNegative: bool, y: int, q: int, r: int): Signed {
    if r == 0 then Signed(if xNegative != yNegative then -q else q, 0)
    else if xNegative then
      if yNegative then Signed(q + 1, -r + y) else Signed(-(q + 1), -r + y)
    else Signed(if yNegative then -q else q, r)
  }

  /** For all signs this is the one division with a remainder from zero up to the divisor's magnitude. */
  lemma SignsAreEuclidean(x: int, y: int, q: nat, r: nat)
    requires y != 0
    requires Abs(x) == q * Abs(y) + r && r < Abs(y)
    ensures SignCorrection(x < 0, y < 0, Abs(y), q, r) == Signed(x / y, x % y)
  {
    var s := SignCorrection(x < 0, y < 0, Abs(y), q, r);
    SignedProduct(q, Abs(y));
    assert x == s.quotient * y + s.remainder && 0 <= s.remainder < Abs(y);
    EuclideanIsUnique(x, y, s.quotient, s.remainder);
  }

  function Abs(x: int): nat {
    if x < 0 then -x else x
  }

  lemma SignedProduct(q: int, y: int)
    ensures (-q) * (-y) == q * y && (-q) * y == -(q * y) && q * (-y) == -(q * y)
    ensures (q + 1) * y == q * y + y && (q + 1) * (-y) == -(q * y) - y
    ensures (-(q + 1)) * y == -(q * y) - y && (-(q + 1)) * (-y) == q * y + y
  {
  }

  lemma EuclideanIsUnique(x: int, y: int, q: int, r: int)
    requires y != 0 && x == q * y + r && 0 <= r < Abs(y)
    ensures q == x / y && r == x % y
  {
    var q', r' := x / y, x % y;
    assert x == q' * y + r' && 0 <= r' < Abs(y);
    assert (q - q') * y == r' - r;
    if q < q' {
      SignedTimes(q' - q, y);
    } else if q' < q {
      SignedTimes(q - q', y);
    }
  }

  lemma SignedTimes(k: int, y: int)
    requires 1 <= k
    ensures Abs(k * y) >= Abs(y) && (-k) * y == -(k * y)
  {
  }

  /** The corrected quotient: its sign, and one more where the remainder is taken from the divisor. */
  method CorrectQuotientSign(q: array<int32>, qlen: nat, xneg: bool, yneg: bool, exact: bool)
    returns (r: array<int32>, len: nat, negative: bool)
    requires qlen <= q.Length && Normal(q[..qlen])
    modifies q
    ensures (r == q || fresh(r)) && len <= r.Length && Normal(r[..len])
    ensures GoodCapacity(q.Length) ==> GoodCapacity(r.Length)
    ensures negative <==> if exact || !xneg then xneg != yneg else !yneg
    ensures Val(r[..len]) == old(Val(q[..qlen])) + if exact || !xneg then 0 else 1
  {
    hide Val, GoodCapacity;
    r, len := q, qlen;
    if exact {
      negative := xneg != yneg;
    } else if xneg {
      r, len := AddOne(q, qlen);
      negative := !yneg;
    } else {
      negative := yneg;
    }
  }

  /**
   The corrected remainder: of a negative dividend it is what is missing to the divisor. The capacity on record is the
   old one, also where the storage is replaced.
   */
  method CorrectRemainder(r: array<int32>, rlen: nat, xneg: bool, y: array<int32>, yo: nat, ylen: nat)
    returns (s: array<int32>, len: nat, capacity: nat)
    requires rlen <= r.Length && yo + ylen <= y.Length && r != y
    requires Normal(r[..rlen]) && Normal(y[yo..yo + ylen]) && Val(r[..rlen]) < Val(y[yo..yo + ylen])
    modifies r
    ensures (s == r || fresh(s)) && len <= s.Length && capacity == r.Length
    ensures Val(s[..len]) == old(if rlen > 0 && xneg then Val(y[yo..yo + ylen]) - Val(r[..rlen]) else Val(r[..rlen]))
    ensures Normal(s[..len]) <==> !(xneg && old(LeavesLeadingZero(r[..rlen], y[yo..yo + ylen])))
    ensures len <= capacity <==>
      !(xneg && rlen > 0 && r.Length < ylen && Pow(r.Length) <= old(Val(y[yo..yo + ylen]) - Val(r[..rlen])))
  {
    hide Val, Pow, Normal, LeavesLeadingZero;
    s, len, capacity := r, rlen, r.Length;
    NothingLeft(r[..rlen], y[yo..yo + ylen]);
    if rlen > 0 && xneg {
      assert r[0..0 + rlen] == r[..rlen];
      assert r[..][0..0 + rlen] == r[..rlen];
      var so, flipped;
      s, so, len, flipped, capacity := SubtractMagnitude(r, 0, rlen, y, yo, ylen);
      assert s[0..0 + len] == s[..len];
    }
  }

  lemma NothingLeft(r: seq<int32>, y: seq<int32>)
    requires Val(r) < Val(y)
    ensures y != [] && (r == [] ==> !LeavesLeadingZero(r, y))
  {
  }

  /** A negative dividend, copied into a capacity of `c` limbs, that is missing more than that to the divisor. */
  ghost predicate Outgrows(xneg: bool, u: seq<int32>, v: seq<int32>, c: nat) {
    xneg && Val(u) < Val(v) && Pow(c) <= Val(v) - Val(u)
  }

  /**
   Quotient and remainder with signs, into two objects with the storages `qs` and `rs`. They are the Euclidean ones.
   The class invariant wants no leading zero limb, no negative zero and no more limbs than the capacity on record: the
   remainder keeps it except where the last subtraction leaves a leading zero or outgrows the capacity, and the
   quotient except for a positive dividend smaller than a negative divisor.
   */
  method DivideTo(x: array<int32>, xo: nat, xlen: nat, xneg: bool, y: array<int32>, yo: nat, ylen: nat, yneg: bool,
      qs: array<int32>, rs: array<int32>)
    returns (q: array<int32>, qlen: nat, qneg: bool, r: array<int32>, rlen: nat, capacity: nat)
    requires xo + xlen <= x.Length && yo + ylen <= y.Length && 0 < ylen && (xlen == 0 ==> !xneg)
    requires Results(x, y, qs, rs)
    requires Normal(x[xo..xo + xlen]) && Normal(y[yo..yo + ylen])
    modifies qs, rs
    ensures (q == qs || fresh(q)) && (r == rs || fresh(r)) && q != r
    ensures qlen <= q.Length && rlen <= r.Length && Normal(q[..qlen])
    ensures GoodCapacity(x.Length) && GoodCapacity(qs.Length) && GoodCapacity(rs.Length) ==>
      GoodCapacity(q.Length) && GoodCapacity(capacity)
    ensures var a, b := SignedValue(xneg, Val(x[xo..xo + xlen])), SignedValue(yneg, Val(y[yo..yo + ylen]));
      && b != 0 && SignedValue(qneg, Val(q[..qlen])) == a / b && Val(r[..rlen]) == a % b
      && (qlen == 0 && qneg <==> 0 < a < -b)
    ensures Normal(r[..rlen]) <==>
      !(xneg && LeavesLeadingZero(RemainderLimbs(x[xo..xo + xlen], y[yo..yo + ylen]), y[yo..yo + ylen]))
    ensures rlen <= capacity <==>
      !Outgrows(xneg, x[xo..xo + xlen], y[yo..yo + ylen], CopyCapacity(rs.Length, x.Length, xlen))
  {
    hide Val, Pow, Normal, LimbsOf, LeavesLeadingZero, SignedValue, RemainderLimbs, CopyCapacity;
    hide Outgrows, GoodCapacity;
    ghost var u, v := x[xo..xo + xlen], y[yo..yo + ylen];
    var q0, qlen0, r0, rlen0 := DivideMagnitudes(x, xo, xlen, y, yo, ylen, qs, rs);
    ghost var p, m := Val(q0[..qlen0]), Val(r0[..rlen0]);
    ZeroIsEmpty(u);
    ZeroIsEmpty(r0[..rlen0]);
    RemainderIs(u, v, p, r0[..rlen0]);
    WhenOutgrown(xneg, u, v, p, r0[..rlen0], r0.Length, CopyCapacity(rs.Length, x.Length, xlen));
    q, qlen, qneg := CorrectQuotientSign(q0, qlen0, xneg, yneg, rlen0 == 0);
    r, rlen, capacity := CorrectRemainder(r0, rlen0, xneg, y, yo, ylen);
    if xlen == 0 {
      qneg := false;
    }
    ZeroIsEmpty(q[..qlen]);
    SignedDivided(xneg, Val(u), yneg, Val(v), p, m);
    NegativeZero(xneg, Val(u), yneg, Val(v), p, m);
  }

  /** Only a remainder that is the copied dividend can outgrow its capacity. */
  lemma WhenOutgrown(xneg: bool, u: seq<int32>, v: seq<int32>, q: nat, r: seq<int32>, capacity: nat, c: nat)
    requires Val(u) == q * Val(v) + Val(r) && Val(r) < Val(v) && Normal(u) && Normal(r) && (u == [] ==> !xneg)
    requires if u != [] && Val(u) < Val(v) then capacity == c else r != [] ==> |v| <= capacity
    ensures Outgrows(xneg, u, v, c) <==>
      xneg && r != [] && capacity < |v| && Pow(capacity) <= Val(v) - Val(r)
  {
    hide Val, Pow;
    ZeroIsEmpty(u);
    ZeroIsEmpty(r);
    if Val(u) < Val(v) {
      SmallerIsRemainder(q, Val(v), Val(r), Val(u));
      ValBound(v);
      if |v| <= c {
        PowGrows(|v|, c);
      }
    }
  }

  lemma SmallerIsRemainder(q: nat, v: nat, r: nat, u: nat)
    requires u == q * v + r && u < v
    ensures r == u
  {
    TimesMonotone(if q == 0 then 0 else 1, q, v);
  }

  /** The limbs of the remainder of the magnitudes. */
  ghost function RemainderLimbs(u: seq<int32>, v: seq<int32>): seq<int32> {
    if Val(v) == 0 then [] else LimbsOf(Val(u) % Val(v))
  }

  lemma RemainderIs(u: seq<int32>, v: seq<int32>, q: nat, r: seq<int32>)
    requires Val(u) == q * Val(v) + Val(r) && Val(r) < Val(v) && Normal(r)
    ensures r == RemainderLimbs(u, v)
  {
    hide Val, LimbsOf;
    EuclideanIsUnique(Val(u), Val(v), q, Val(r));
    LimbsAreUnique(r);
  }

  /** The corrected pair is the signed division. */
  lemma SignedDivided(xneg: bool, u: nat, yneg: bool, v: nat, q: nat, r: nat)
    requires u == q * v + r && r < v && (u == 0 ==> !xneg)
    ensures var a, b := SignedValue(xneg, u), SignedValue(yneg, v);
      var negative := if r == 0 || !xneg then xneg != yneg else !yneg;
      && b != 0
      && SignedValue(negative && u != 0, q + if r == 0 || !xneg then 0 else 1) == a / b
      && (if r > 0 && xneg then v - r else r) == a % b
  {
    var a, b := SignedValue(xneg, u), SignedValue(yneg, v);
    NothingDivided(q, v, r);
    SignsAreEuclidean(a, b, q, r);
  }

  lemma NothingDivided(q: nat, v: nat, r: nat)
    requires r < v
    ensures q * v + r == 0 ==> q == 0 && r == 0
  {
    TimesMonotone(if q == 0 then 0 else 1, q, v);
  }

  /** The quotient is zero and negative exactly for a positive dividend below a negative divisor. */
  lemma NegativeZero(xneg: bool, u: nat, yneg: bool, v: nat, q: nat, r: nat)
    requires u == q * v + r && r < v && (u == 0 ==> !xneg)
    ensures var negative := if r == 0 || !xneg then xneg != yneg else !yneg;
      q + (if r == 0 || !xneg then 0 else 1) == 0 && negative && u != 0
      <==> 0 < SignedValue(xneg, u) < -SignedValue(yneg, v)
  {
    TimesMonotone(if q == 0 then 0 else 1, q, v);
  }

  /** One divided by minus two: the quotient is a negative zero. */
  lemma NegativeZeroHappens()
    ensures Normal([1]) && Normal([2])
    ensures 0 < SignedValue(false, Val([1])) < -SignedValue(true, Val([2]))
  {
    OneLimb(1);
    OneLimb(2);
    assert Unsigned(1) < Unsigned(2);
  }

  /** A negative dividend of one limb in a capacity of four, and a divisor of eight limbs. */
  lemma RemainderOutgrows()
    ensures exists u: seq<int32>, v: seq<int32> ::
      |u| == 1 && |v| == 8 && Normal(u) && Normal(v) && Outgrows(true, u, v, 4)
  {
    hide Val, Pow;
    CapacityNotUpdated();
    var s: seq<int32>, t: seq<int32> :|
      |s| == 1 && |t| == 8 && Normal(s) && Normal(t) && Pow(4) <= Val(t) - Val(s);
    assert Outgrows(true, s, t, 4);
  }

  /** One object for both results can be right only where quotient and remainder are the same number. */
  lemma OneObjectForBoth(a: int, b: int, v: int)
    requires b != 0
    ensures a == b * v + v && 0 <= v < Abs(b) <==> v == a / b && v == a % b
  {
    if a == b * v + v && 0 <= v < Abs(b) {
      EuclideanIsUnique(a, b, v, v);
    }
  }

  /** A divisor of three limbs and a negative dividend whose remainder is left with a leading zero. */
  lemma RemainderKeepsLeadingZero()
    ensures exists u: seq<int32>, v: seq<int32> :: Normal(u) && Normal(v) && LeavesLeadingZero(RemainderLimbs(u, v), v)
  {
    hide Val;
    var u: seq<int32>, v: seq<int32> := [5, -1, 1], [0, 0, 2];
    TopDifferenceIs(u, v, 2);
    TopDifferenceIs(v, u, 2);
    assert u[..1] == [5] && v[..1] == [0];
    OneLimb(0);
    OneLimb(5);
    assert BarelyAhead(v, u, 2);
    FirstDifference(u, v, 2);
    RemainderIs(u, v, 0, u);
  }
}
