/** `divide_to` of big integers: comparison, the special cases, normalisation around the long division, and signs. */
module BigDivision {
  import opened Int32
  import opened Limbs
  import opened Magnitudes
  import opened Shifts
  import opened LongDivision

  lemma DigitDecides(low: nat, low': nat, d: nat, d': nat, p: nat, high: nat)
    requires low < p && d < d'
    ensures (low + d * p) + high < (low' + d' * p) + high
  {
    TimesMonotone(d + 1, d', p);
  }

  /** With equal limbs above, the first different limb decides. */
  lemma FirstDifference(s: seq<int32>, t: seq<int32>, k: nat)
    requires k < |s| == |t| && s[k + 1..] == t[k + 1..] && Unsigned(s[k]) < Unsigned(t[k])
    ensures Val(s) < Val(t)
  {
    hide Val, Pow, Unsigned;
    ValAt(s, k);
    ValAt(t, k);
    ValBound(s[..k]);
    DigitDecides(Val(s[..k]), Val(t[..k]), Unsigned(s[k]), Unsigned(t[k]), Pow(k), Pow(k + 1) * Val(s[k + 1..]));
  }

  /** A limb string as the limbs below `k`, limb `k` and the limbs above it. */
  lemma ValAt(s: seq<int32>, k: nat)
    requires k < |s|
    ensures Val(s) == (Val(s[..k]) + Unsigned(s[k]) * Pow(k)) + Pow(k + 1) * Val(s[k + 1..])
  {
    hide Val, Pow, Unsigned;
    assert s == s[..k + 1] + s[k + 1..];
    ValConcat(s[..k + 1], s[k + 1..]);
    ValPrefix(s, k);
  }

  /** Compares two magnitudes: the lengths first, then the limbs from the top. */
  method AbsCompare(x: array<int32>, xo: nat, xlen: nat, y: array<int32>, yo: nat, ylen: nat) returns (c: int)
    requires xo + xlen <= x.Length && yo + ylen <= y.Length
    requires Normal(x[xo..xo + xlen]) && Normal(y[yo..yo + ylen])
    ensures -1 <= c <= 1
    ensures c < 0 <==> Val(x[xo..xo + xlen]) < Val(y[yo..yo + ylen])
    ensures c > 0 <==> Val(x[xo..xo + xlen]) > Val(y[yo..yo + ylen])
  {
    hide Val, Unsigned;
    ghost var s, t := x[xo..xo + xlen], y[yo..yo + ylen];
    if xlen < ylen {
      LongerIsLarger(s, t);
      return -1;
    } else if xlen > ylen {
      LongerIsLarger(t, s);
      return 1;
    }
    var k := xlen;
    while k > 0
      invariant 0 <= k <= xlen && s[k..] == t[k..]
    {
      k := k - 1;
      var va, vb := x[xo + k], y[yo + k];
      UnsignedInjective2(va, vb);
      if Unsigned(va) < Unsigned(vb) {
        FirstDifference(s, t, k);
        return -1;
      } else if Unsigned(vb) < Unsigned(va) {
        FirstDifference(t, s, k);
        return 1;
      }
      assert s[k..] == [s[k]] + s[k + 1..] && t[k..] == [t[k]] + t[k + 1..];
    }
    assert s[0..] == s && t[0..] == t;
    c := 0;
  }

  /** A quotient has at most one leading zero limb. */
  lemma QuotientLength(x: seq<int32>, y: seq<int32>, q: seq<int32>, r: nat)
    requires Normal(x) && 1 <= |y| <= |x| && |x| - |y| <= |q| <= |x| - |y| + 1
    requires Val(y) <= Val(x) && Val(x) == Val(q) * Val(y) + r && r < Val(y)
    ensures q != [] && (q[|q| - 1] == 0 ==> Normal(q[..|q| - 1]))
  {
    hide Val, Pow, Unsigned;
    QuotientIsPositive(Val(x), Val(y), Val(q), r);
    ValEmpty();
    var l := |q| - 1;
    if q[l] == 0 && l > 0 {
      var p := q[..l];
      ZeroOnTop(q);
      ValBound(y);
      ValNormalized(p);
      PlacesBelow(x, l - 1, |y|);
      if Val(p) < Pow(l - 1) {
        QuotientTooSmall(Val(p), Val(y), r, Pow(l - 1), Pow(|y|));
      }
    }
  }

  lemma PlacesBelow(x: seq<int32>, k: nat, n: nat)
    requires x != [] && Normal(x) && k + n < |x|
    ensures Pow(k) * Pow(n) <= Val(x)
  {
    hide Val, Pow;
    ValNormalized(x);
    PowSum(k, n);
    PowGrows(k + n, |x| - 1);
  }

  lemma QuotientIsPositive(x: nat, v: nat, q: nat, r: nat)
    requires v <= x && x == q * v + r && r < v
    ensures 0 < q
  {
  }

  lemma QuotientTooSmall(q: nat, v: nat, r: nat, p: nat, w: nat)
    requires q < p && r < v < w
    ensures q * v + r < p * w
  {
    TimesMonotone(q + 1, p, v);
    TimesMonotone(v, w, p);
  }

  lemma TopDigit(e: nat, t: nat, place: nat, low: nat, top: nat)
    requires low + top * place == e + t * place && low < place
    ensures t <= top
  {
    TimesMonotone(if top < t then top + 1 else t, t, place);
  }

  lemma TopFits(top: nat, p: nat, g: nat)
    requires p * g == BASE && top * p < BASE
    ensures (top + 1) * p <= BASE
  {
    if g <= top {
      TimesMonotone(g, top, p);
    }
    TimesMonotone(top + 1, if g <= top then top + 1 else g, p);
  }

  /** Shifts a divisor until its top bit is set; it needs no more limbs. */
  method Normalize(d: array<int32>, dof: nat, n: nat) returns (r: array<int32>, ro: nat, bits: nat)
    requires 0 < n && dof + n <= d.Length && Normal(d[dof..dof + n])
    modifies d
    ensures (r == d || fresh(r)) && ro + n <= r.Length && bits <= 31
    ensures Val(r[ro..ro + n]) == old(Val(d[dof..dof + n])) * TwoTo(bits)
    ensures BASE <= 2 * Unsigned(r[ro + n - 1])
  {
    hide Val, Pow, Unsigned, TwoTo;
    ghost var y := d[dof..dof + n];
    bits := NormalizingShift(d[dof + n - 1]);
    r, ro := d, dof;
    TwoToSmall();
    if bits > 0 {
      var len;
      r, ro, len := ShiftLeft(d, dof, n, bits);
      NormalizedLength(y, r[ro..ro + len], bits);
    }
    NormalizedTop(y, r[ro..ro + n], bits);
  }

  lemma NormalizedFits(y: seq<int32>, bits: nat)
    requires y != [] && bits <= 31 && Unsigned(y[|y| - 1]) * TwoTo(bits) < BASE
    ensures Val(y) * TwoTo(bits) < Pow(|y|)
  {
    hide Val, Pow, Unsigned, TwoTo;
    var n := |y| - 1;
    SplitTop(y);
    TwoToBase(bits);
    PowNext(n);
    TopFits(Unsigned(y[n]), TwoTo(bits), TwoTo(32 - bits));
    BelowNextPlace(Val(y[..n]), Unsigned(y[n]), TwoTo(bits), Pow(n));
  }

  lemma BelowNextPlace(low: nat, top: nat, p: nat, place: nat)
    requires low < place && 0 < p && (top + 1) * p <= BASE
    ensures (low + top * place) * p < BASE * place
  {
    TimesMonotone(low + top * place + 1, (top + 1) * place, p);
    TimesMonotone((top + 1) * p, BASE, place);
    SwapFactors(top + 1, place, p);
  }

  lemma SwapFactors(a: nat, b: nat, c: nat)
    ensures a * b * c == a * c * b
  {
  }

  /** The normalised divisor has as many limbs as before. */
  lemma NormalizedLength(y: seq<int32>, z: seq<int32>, bits: nat)
    requires y != [] && Normal(y) && Normal(z) && bits <= 31 && Unsigned(y[|y| - 1]) * TwoTo(bits) < BASE
    requires Val(z) == Val(y) * TwoTo(bits)
    ensures |z| == |y|
  {
    hide Val, Pow, Unsigned, TwoTo;
    NormalizedFits(y, bits);
    TimesMonotone(1, TwoTo(bits), Val(y));
    SameLength(y, z);
  }

  lemma SameLength(y: seq<int32>, z: seq<int32>)
    requires y != [] && Normal(y) && Normal(z) && Val(y) <= Val(z) < Pow(|y|)
    ensures |z| == |y|
  {
    hide Val, Pow;
    ValNormalized(y);
    ValBound(z);
    if |z| < |y| {
      PowGrows(|z|, |y| - 1);
    } else if |y| < |z| {
      ValNormalized(z);
      PowGrows(|y|, |z| - 1);
    }
  }

  lemma ScaledTop(low: nat, top: nat, place: nat, p: nat)
    ensures (low + top * place) * p == low * p + top * p * place
  {
    SwapFactors(top, place, p);
  }

  lemma NormalizedTop(y: seq<int32>, z: seq<int32>, bits: nat)
    requires y != [] && |z| == |y| && bits <= 31 && Val(z) == Val(y) * TwoTo(bits)
    requires BASE <= 2 * (Unsigned(y[|y| - 1]) * TwoTo(bits))
    ensures BASE <= 2 * Unsigned(z[|z| - 1])
  {
    hide Val, Pow, Unsigned, TwoTo;
    var n, p := |y| - 1, TwoTo(bits);
    SplitTop(y);
    SplitTop(z);
    ScaledTop(Val(y[..n]), Unsigned(y[n]), Pow(n), p);
    TopDigit(Val(y[..n]) * p, Unsigned(y[n]) * p, Pow(n), Val(z[..n]), Unsigned(z[n]));
  }

  lemma SplitTop(s: seq<int32>)
    requires s != []
    ensures Val(s) == Val(s[..|s| - 1]) + Unsigned(s[|s| - 1]) * Pow(|s| - 1)
    ensures Val(s[..|s| - 1]) < Pow(|s| - 1)
  {
    ValBound(s[..|s| - 1]);
  }

  /** Taking the normalisation off again. */
  lemma Unnormalized(x: nat, q: nat, y: nat, p: nat, shifted: nat, r: nat, low: nat)
    requires x * p == q * (y * p) + shifted && shifted < y * p && shifted == p * r + low && low < p
    ensures low == 0 && x == q * y + r && r < y
  {
    Regroup(q, y, p);
    DifferenceTimes(x, q * y, p);
    SameDigits(0, low, x - q * y, r, p);
    TimesMonotone(if y <= r then y else 0, r, p);
  }

  lemma Regroup(a: nat, b: nat, c: nat)
    ensures a * (b * c) == (a * b) * c
  {
  }

  lemma DifferenceTimes(x: nat, z: nat, p: nat)
    requires 0 < p && z * p <= x * p
    ensures z <= x && (x - z) * p == x * p - z * p
  {
    TimesMonotone(x + 1, if x < z then z else x + 1, p);
  }

  /** `x` is `y` times the first plus the second limb string, both without leading zeros. */
  ghost predicate Divided(x: nat, y: nat, q: array<int32>, qlen: nat, r: array<int32>, rlen: nat)
    reads q, r
  {
    && qlen <= q.Length && rlen <= r.Length
    && Normal(q[..qlen]) && Normal(r[..rlen])
    && x == Val(q[..qlen]) * y + Val(r[..rlen]) && Val(r[..rlen]) < y
  }

  /** Removes leading zero limbs. */
  method StripZeros(r: array<int32>, n: nat) returns (j: nat)
    requires n <= r.Length
    ensures j <= n && Normal(r[..j]) && Val(r[..j]) == Val(r[..n])
  {
    hide Val;
    j := n;
    while j > 0 && r[j - 1] == 0
      invariant 0 <= j <= n && Val(r[..j]) == Val(r[..n])
    {
      ZeroOnTop(r[..j]);
      assert r[..j][..j - 1] == r[..j - 1];
      j := j - 1;
    }
  }

  /** The remainder leaves its normalised form. */
  method Unnormalize(r: array<int32>, n: nat, bits: nat, ghost x: nat, ghost q: nat, ghost y: nat) returns (rlen: nat)
    requires n <= r.Length && bits <= 31 && 0 < y
    requires x * TwoTo(bits) == q * (y * TwoTo(bits)) + Val(r[..n]) && Val(r[..n]) < y * TwoTo(bits)
    modifies r
    ensures rlen <= n && Normal(r[..rlen])
    ensures x == q * y + Val(r[..rlen]) && Val(r[..rlen]) < y
  {
    hide Val, Pow, Unsigned, TwoTo, LowBits;
    rlen := StripZeros(r, n);
    TwoToSmall();
    ghost var s := r[..rlen];
    if bits > 0 && rlen > 0 {
      assert s == r[0..0 + rlen];
      rlen := PrimitiveShiftRight(r, 0, rlen, bits);
      DividedBy(Val(s), TwoTo(bits));
      Unnormalized(x, q, y, TwoTo(bits), Val(s), Val(r[..rlen]), Val(s) % TwoTo(bits));
    } else {
      ValEmpty();
      Unnormalized(x, q, y, TwoTo(bits), Val(s), Val(s), 0);
    }
  }

  /** The quotient by a normalised divisor, without leading zero; the remainder is left in the dividend's limbs. */
  method LongQuotient(r: array<int32>, nlen: nat, d: array<int32>, dof: nat, dlen: nat, storage: array<int32>)
    returns (q: array<int32>, qlen: nat)
    requires 2 <= dlen && nlen <= r.Length && dof + dlen <= d.Length && 0 < storage.Length
    requires r != d && storage != d && storage != r
    requires BASE <= 2 * Unsigned(d[dof + dlen - 1])
    requires Normal(r[..nlen]) && Normal(d[dof..dof + dlen]) && Val(d[dof..dof + dlen]) <= Val(r[..nlen])
    modifies r, storage
    ensures (q == storage || fresh(q)) && qlen <= q.Length && Normal(q[..qlen]) && dlen <= nlen
    ensures GoodCapacity(storage.Length) ==> GoodCapacity(q.Length)
    ensures old(Val(r[..nlen])) == Val(q[..qlen]) * Val(d[dof..dof + dlen]) + Val(r[..dlen])
    ensures Val(r[..dlen]) < Val(d[dof..dof + dlen])
  {
    hide Val, Pow, Unsigned, GoodCapacity;
    ghost var w, z := r[..nlen], d[dof..dof + dlen];
    NotShorter(w, z);
    q, qlen := DivideNormalized(r, nlen, d, dof, dlen, storage);
    ghost var p := q[..qlen];
    QuotientLength(w, z, p, Val(r[..dlen]));
    if q[qlen - 1] == 0 {
      ZeroOnTop(p);
      qlen := qlen - 1;
      assert p[..qlen] == q[..qlen];
    }
  }

  /** The quotient of numbers of two limbs and more. */
  method DivideLong(x: array<int32>, xo: nat, xlen: nat, y: array<int32>, yo: nat, ylen: nat,
      qs: array<int32>, rs: array<int32>)
    returns (q: array<int32>, qlen: nat, r: array<int32>, rlen: nat)
    requires xo + xlen <= x.Length && yo + ylen <= y.Length && 2 <= ylen
    requires Results(x, y, qs, rs)
    requires Normal(x[xo..xo + xlen]) && Normal(y[yo..yo + ylen])
    requires Val(y[yo..yo + ylen]) < Val(x[xo..xo + xlen])
    modifies qs, rs
    ensures Divided(Val(x[xo..xo + xlen]), Val(y[yo..yo + ylen]), q, qlen, r, rlen)
    ensures (q == qs || fresh(q)) && (r == rs || fresh(r)) && q != r && ylen <= r.Length
    ensures GoodCapacity(x.Length) && GoodCapacity(qs.Length) && GoodCapacity(rs.Length) ==>
      GoodCapacity(q.Length) && GoodCapacity(r.Length)
  {
    hide Val, Pow, Unsigned, TwoTo, Normal, GoodCapacity;
    ghost var u, v := x[xo..xo + xlen], y[yo..yo + ylen];
    var register1 := CopyLimbs(y, yo, ylen, ylen);
    assert register1[0..0 + ylen] == v;
    var d, dof, bits := Normalize(register1, 0, ylen);
    var nlen;
    r, nlen := ShiftDividend(x, xo, xlen, bits, rs);
    TimesMonotone(Val(v), Val(u), TwoTo(bits));
    NormalFromTop(d[dof..dof + ylen]);
    q, qlen := LongQuotient(r, nlen, d, dof, ylen, qs);
    ValPositive(v);
    rlen := Unnormalize(r, ylen, bits, Val(u), Val(q[..qlen]), Val(v));
  }

  /** The remainder starts as a copy of the dividend, shifted as far as the divisor. */
  method ShiftDividend(x: array<int32>, xo: nat, n: nat, bits: nat, storage: array<int32>)
    returns (r: array<int32>, nlen: nat)
    requires xo + n <= x.Length && Normal(x[xo..xo + n]) && storage != x
    modifies storage
    ensures (r == storage || fresh(r)) && nlen <= r.Length && Normal(r[..nlen])
    ensures GoodCapacity(x.Length) && GoodCapacity(storage.Length) ==> GoodCapacity(r.Length)
    ensures Val(r[..nlen]) == Val(x[xo..xo + n]) * TwoTo(bits)
  {
    hide Val, TwoTo, GoodCapacity, CopyCapacity;
    r := Copy(x, xo, n, storage);
    nlen := n;
    TwoToSmall();
    if bits > 0 {
      var ro;
      assert r[0..0 + n] == r[..n];
      r, ro, nlen := ShiftLeft(r, 0, n, bits);
      assert r[0..0 + nlen] == r[..nlen];
    }
  }

  lemma NormalFromTop(s: seq<int32>)
    requires s != [] && BASE <= 2 * Unsigned(s[|s| - 1])
    ensures Normal(s)
  {
  }

  lemma ValPositive(v: seq<int32>)
    requires v != [] && Normal(v)
    ensures 0 < Val(v)
  {
    hide Val;
    ZeroIsEmpty(v);
  }

  /** A larger number has at least as many limbs. */
  lemma NotShorter(s: seq<int32>, t: seq<int32>)
    requires Normal(t) && Val(t) <= Val(s)
    ensures |t| <= |s|
  {
    if |s| < |t| {
      LongerIsLarger(s, t);
    }
  }

  /** A divisor of one limb. */
  method DivideShort(x: array<int32>, xo: nat, xlen: nat, divisor: int32, qs: array<int32>, rs: array<int32>)
    returns (q: array<int32>, qlen: nat, r: array<int32>, rlen: nat)
    requires xo + xlen <= x.Length && divisor != 0 && 0 < xlen && Normal(x[xo..xo + xlen])
    requires Unsigned(divisor) < Val(x[xo..xo + xlen])
    requires qs != x && rs != x && qs != rs && 0 < rs.Length
    modifies qs, rs
    ensures Divided(Val(x[xo..xo + xlen]), Unsigned(divisor), q, qlen, r, rlen)
    ensures (q == qs || fresh(q)) && r == rs && q != r
    ensures GoodCapacity(x.Length) && GoodCapacity(qs.Length) ==> GoodCapacity(q.Length)
  {
    hide Val, Pow, Unsigned, GoodCapacity, CopyCapacity;
    ghost var u := x[xo..xo + xlen];
    q := Copy(x, xo, xlen, qs);
    r := rs;
    qlen := xlen;
    rlen := 0;
    assert q[0..xlen] == q[..xlen];
    var rem := DivideOneWord(q, 0, xlen, divisor);
    ghost var p := q[..xlen];
    assert q[0..xlen] == p;
    OneLimb(divisor);
    QuotientLength(u, [divisor], p, Unsigned(rem));
    if q[xlen - 1] == 0 {
      ZeroOnTop(p);
      qlen := xlen - 1;
      assert p[..qlen] == q[..qlen];
    }
    OneLimb(rem);
    UnsignedZero();
    ValEmpty();
    if rem != 0 {
      r[0] := rem;
      rlen := 1;
      assert r[..1] == [rem];
    }
  }

  /** The storages of the results are none of the operands', and not one for both. */
  predicate Results(x: array<int32>, y: array<int32>, qs: array<int32>, rs: array<int32>) {
    qs != x && qs != y && rs != x && rs != y && qs != rs && 0 < qs.Length && 0 < rs.Length
  }

  /**
   Quotient and remainder of two magnitudes, by the case that applies, in the storages of the results where they are
   large enough. The remainder's has room for the divisor, except that of a smaller dividend, which is copied.
   */
  method DivideMagnitudes(x: array<int32>, xo: nat, xlen: nat, y: array<int32>, yo: nat, ylen: nat,
      qs: array<int32>, rs: array<int32>)
    returns (q: array<int32>, qlen: nat, r: array<int32>, rlen: nat)
    requires xo + xlen <= x.Length && yo + ylen <= y.Length && 0 < ylen
    requires Results(x, y, qs, rs)
    requires Normal(x[xo..xo + xlen]) && Normal(y[yo..yo + ylen])
    modifies qs, rs
    ensures Divided(Val(x[xo..xo + xlen]), Val(y[yo..yo + ylen]), q, qlen, r, rlen)
    ensures (q == qs || fresh(q)) && (r == rs || fresh(r)) && q != r
    ensures if 0 < xlen && Val(x[xo..xo + xlen]) < Val(y[yo..yo + ylen])
            then r.Length == CopyCapacity(rs.Length, x.Length, xlen)
            else rlen > 0 ==> ylen <= r.Length
    ensures GoodCapacity(x.Length) && GoodCapacity(qs.Length) && GoodCapacity(rs.Length) ==>
      GoodCapacity(q.Length) && GoodCapacity(r.Length)
  {
    hide Val, Unsigned, GoodCapacity, CopyCapacity;
    ghost var u, v := x[xo..xo + xlen], y[yo..yo + ylen];
    q, qlen, r, rlen := qs, 0, rs, 0;
    ZeroIsEmpty(u);
    ZeroIsEmpty(v);
    ValEmpty();
    if xlen == 0 {
      return;
    }
    var cmp := AbsCompare(x, xo, xlen, y, yo, ylen);
    if cmp < 0 {
      r := Copy(x, xo, xlen, rs);
      rlen := xlen;
    } else if cmp == 0 {
      q[0], qlen := 1, 1;
      assert q[..1] == [1];
      OneLimb(1);
      UnsignedOne();
    } else if ylen == 1 {
      assert v == [y[yo]];
      OneLimb(y[yo]);
      q, qlen, r, rlen := DivideShort(x, xo, xlen, y[yo], qs, rs);
    } else {
      q, qlen, r, rlen := DivideLong(x, xo, xlen, y, yo, ylen, qs, rs);
    }
  }
}
