/** `subtract_magnitude` of big integers: the difference of two magnitudes, left in the storage of the first. */
module BigSubtraction {
  import opened Int32
  import opened Limbs
  import opened Magnitudes
  import opened LongDivision
  import opened BigDivision
  import opened BigAddition

  /** The place of the highest limb in which two limb strings of one length differ; `|s|` when they are equal. */
  ghost function TopDifference(s: seq<int32>, t: seq<int32>): (k: nat)
    requires |s| == |t|
    ensures k <= |s| && (k < |s| ==> s[k] != t[k] && s[k + 1..] == t[k + 1..]) && (k == |s| ==> s == t)
  {
    if s == [] then 0
    else
      var n := |s| - 1;
      if s[n] != t[n] then n
      else
        assert s == s[..n] + [s[n]] && t == t[..n] + [t[n]];
        var k := TopDifference(s[..n], t[..n]);
        assert k < n ==> s[k + 1..] == s[..n][k + 1..] + [s[n]] && t[k + 1..] == t[..n][k + 1..] + [t[n]];
        if k == n then n + 1 else k
  }

  /**
   The larger number `a` is ahead by one in the top limb that differs, the limbs below that are zero and all
   ones, and the rest of `a` is smaller than the rest of `b`.
   */
  ghost predicate BarelyAhead(a: seq<int32>, b: seq<int32>, k: nat)
    requires k < |a| == |b|
  {
    && 1 <= k
    && Unsigned(a[k]) == Unsigned(b[k]) + 1
    && a[k - 1] == 0 && b[k - 1] == -1
    && Val(a[..k - 1]) < Val(b[..k - 1])
  }

  /** The difference of three-part numbers is below one place of the middle part only when it is barely ahead. */
  lemma SmallDifference(u: nat, v: nat, p: nat, q: nat, c: nat, d: nat, place: nat)
    requires u > v && p < BASE && q < BASE && c < place && d < place
    ensures (c + p * place + u * (BASE * place)) - (d + q * place + v * (BASE * place)) < place <==>
      u == v + 1 && p == 0 && q == BASE - 1 && c < d
  {
    var w := (u - v) * BASE + p - q;
    assert (c + p * place + u * (BASE * place)) - (d + q * place + v * (BASE * place)) == w * place + (c - d);
    assert 1 <= w && (w == 1 <==> u == v + 1 && p == 0 && q == BASE - 1);
    if 2 <= w {
      TimesMonotone(2, w, place);
    }
  }

  /** Barely ahead means that the difference is two limbs short. */
  lemma BarelyAheadIsShort(a: seq<int32>, b: seq<int32>, k: nat)
    requires 1 <= k < |a| == |b| && Unsigned(a[k]) > Unsigned(b[k])
    ensures BarelyAhead(a, b, k) <==> Val(a[..k + 1]) - Val(b[..k + 1]) < Pow(k - 1)
  {
    hide Val, Pow, Unsigned;
    TwoTopWords(a[..k + 1]);
    TwoTopWords(b[..k + 1]);
    assert a[..k + 1][..k - 1] == a[..k - 1] && b[..k + 1][..k - 1] == b[..k - 1];
    UnsignedIsWord();
    EndWords(a[k - 1], b[k - 1]);
    SmallDifference(Unsigned(a[k]), Unsigned(b[k]), Unsigned(a[k - 1]), Unsigned(b[k - 1]),
                    Val(a[..k - 1]), Val(b[..k - 1]), Pow(k - 1));
  }

  /** After one leading zero is removed, the difference has another one exactly when it was barely ahead. */
  lemma DifferenceIsNormal(a: seq<int32>, b: seq<int32>, k: nat, r: seq<int32>)
    requires k < |a| == |b| && |r| == k + 1 && Unsigned(a[k]) > Unsigned(b[k])
    requires Val(r) == Val(a[..k + 1]) - Val(b[..k + 1]) > 0
    ensures r[k] == 0 ==> Val(r[..k]) == Val(r) && (Normal(r[..k]) <==> !BarelyAhead(a, b, k))
    ensures r[k] != 0 ==> !BarelyAhead(a, b, k)
  {
    hide Val, Pow, Unsigned;
    ValEmpty();
    ValNormalized(r);
    if r[k] == 0 {
      ZeroOnTop(r);
    }
    if k > 0 {
      BarelyAheadIsShort(a, b, k);
      ValNormalized(r[..k]);
      PowGrows(k - 1, k);
    }
  }

  lemma EndWords(x: int32, y: int32)
    ensures (x == 0 <==> Unsigned(x) == 0) && (y == -1 <==> Unsigned(y) == BASE - 1)
  {
  }

  /** Equal limbs on top do not matter for the difference. */
  lemma EqualTops(s: seq<int32>, t: seq<int32>, k: nat)
    requires k < |s| == |t| && s[k + 1..] == t[k + 1..]
    ensures Val(s) - Val(t) == Val(s[..k + 1]) - Val(t[..k + 1])
  {
    hide Val, Pow;
    assert s == s[..k + 1] + s[k + 1..] && t == t[..k + 1] + t[k + 1..];
    ValConcat(s[..k + 1], s[k + 1..]);
    ValConcat(t[..k + 1], t[k + 1..]);
  }

  /** `s` and `t` have one length and `s` is the larger; only the limbs up to their top difference are subtracted. */
  method SubtractTruncated(r: array<int32>, a: array<int32>, ao: nat, b: array<int32>, bo: nat, n: nat, k: nat)
    returns (len: nat)
    requires ao + n <= a.Length && bo + n <= b.Length && k < n && k + 1 <= r.Length
    requires a != b
    requires TopDifference(a[ao..ao + n], b[bo..bo + n]) == k && Unsigned(a[ao + k]) > Unsigned(b[bo + k])
    modifies r
    ensures len <= r.Length && Val(r[..len]) == old(Val(a[ao..ao + n]) - Val(b[bo..bo + n]))
    ensures Normal(r[..len]) <==> !old(BarelyAhead(a[ao..ao + n], b[bo..bo + n], k))
  {
    hide Val, Pow, Unsigned, BarelyAhead, TopDifference;
    ghost var s, t := a[ao..ao + n], b[bo..bo + n];
    EqualTops(s, t, k);
    assert s[..k + 1] == a[ao..ao + (k + 1)];
    assert t[..k + 1] == b[bo..bo + (k + 1)];
    FirstDifference(t, s, k);
    var dec := SubtractInto(r, 0, a, ao, b, bo, k + 1);
    ghost var d := r[..k + 1];
    assert r[0..0 + (k + 1)] == d;
    ValBound(d);
    NoBorrow(Val(d), Pow(k + 1), dec, Val(s) - Val(t));
    len := k + 1;
    DifferenceIsNormal(s, t, k, d);
    if r[len - 1] == 0 {
      len := len - 1;
      assert r[..len] == d[..k];
    }
  }

  lemma NoBorrow(d: nat, p: nat, dec: bool, difference: nat)
    requires d - p * Bit(dec) == difference && d < p
    ensures !dec && d == difference
  {
  }

  /** The borrow of a subtraction of the shorter `t` from `s` is settled once `stop` limbs are done, and not earlier. */
  ghost predicate SettledAt(s: seq<int32>, t: seq<int32>, stop: nat) {
    && |t| <= stop <= |s| && Val(t) <= Val(s[..stop])
    && (|t| < stop ==> Val(s[..stop - 1]) < Val(t))
  }

  /** A borrow is taken from one more limb of `s`, which is in `a` from `ao` on. */
  method BorrowFrom(r: array<int32>, k: nat, a: array<int32>, ao: nat, ghost s: seq<int32>, ghost t: seq<int32>)
    returns (dec: bool)
    requires k < |s| && k < r.Length && ao + k < a.Length && a[ao + k] == s[k]
    requires Val(r[..k]) - Pow(k) * Bit(true) == Val(s[..k]) - Val(t)
    modifies r
    ensures Val(r[..k + 1]) - Pow(k + 1) * Bit(dec) == Val(s[..k + 1]) - Val(t)
    ensures dec <==> Val(s[..k + 1]) < Val(t)
    ensures forall i :: 0 <= i < r.Length && i != k ==> r[i] == old(r[i])
  {
    hide Val, Pow, Unsigned, MbiDec;
    var c := MbiDec(a[ao + k]);
    SubtractColumn(Val(r[..k]), Val(s[..k]), Val(t), Pow(k), Unsigned(c.limb), Bit(c.carry), Unsigned(s[k]), 0,
                   Bit(true));
    PowNext(k);
    ValPrefix(s, k);
    ValSnoc(r[..k], c.limb);
    ghost var done := r[..k];
    r[k] := c.limb;
    assert r[..k + 1] == done + [c.limb];
    dec := c.carry;
    BorrowMeansLess(r[..k + 1], dec, Val(s[..k + 1]), Val(t));
  }

  /** The first `k` limbs are subtracted and `dec` tells whether a borrow is left. */
  ghost predicate Subtracted(r: seq<int32>, k: nat, dec: bool, s: seq<int32>, t: seq<int32>) {
    && k <= |r| && k <= |s|
    && Val(r[..k]) - Pow(k) * Bit(dec) == Val(s[..k]) - Val(t)
    && (dec <==> Val(s[..k]) < Val(t))
  }

  /** Takes borrows until none is left; the storage of `a` and the result may be one and the same. */
  method Settle(r: array<int32>, a: array<int32>, ao: nat, ghost s: seq<int32>, ghost t: seq<int32>, start: nat,
      borrow: bool)
    returns (k: nat)
    requires start <= |s| <= r.Length && ao + |s| <= a.Length && start == |t|
    requires forall i :: start <= i < |s| ==> a[ao + i] == s[i]
    requires Subtracted(r[..], start, borrow, s, t) && Val(t) <= Val(s)
    modifies r
    ensures SettledAt(s, t, k) && Subtracted(r[..], k, false, s, t)
    ensures forall i :: k <= i < r.Length ==> r[i] == old(r[i])
  {
    hide Val, Pow;
    k := start;
    var dec := borrow;
    assert s[..|s|] == s;
    while dec
      invariant start <= k <= |s| && Subtracted(r[..], k, dec, s, t)
      invariant start < k ==> Val(s[..k - 1]) < Val(t)
      invariant forall i :: k <= i < |s| ==> a[ao + i] == s[i]
      invariant forall i :: k <= i < r.Length ==> r[i] == old(r[i])
      decreases |s| - k
    {
      assert r[..][..k] == r[..k];
      dec := BorrowFrom(r, k, a, ao, s, t);
      k := k + 1;
      assert r[..][..k] == r[..k];
    }
  }

  /** Subtracts the shorter number `b` from `a` into the front of `r`, going on until no borrow is left. */
  method SubtractUntilSettled(r: array<int32>, a: array<int32>, ao: nat, n: nat, b: array<int32>, bo: nat, m: nat)
    returns (k: nat)
    requires ao + n <= a.Length && bo + m <= b.Length && m < n <= r.Length && a != b
    requires Normal(a[ao..ao + n])
    modifies r
    ensures SettledAt(old(a[ao..ao + n]), old(b[bo..bo + m]), k)
    ensures Val(r[..k]) == old(Val(a[ao..ao + k]) - Val(b[bo..bo + m]))
    ensures forall i :: k <= i < r.Length ==> r[i] == old(r[i])
  {
    hide Val, Pow, Normal;
    ghost var before, s, t := a[..], a[ao..ao + n], b[bo..bo + m];
    LongerIsLarger(t, s);
    assert s[..m] == a[ao..ao + m];
    var dec := SubtractInto(r, 0, a, ao, b, bo, m);
    assert r[0..0 + m] == r[..m] == r[..][..m];
    BorrowMeansLess(r[..m], dec, Val(s[..m]), Val(t));
    k := Settle(r, a, ao, s, t, m, dec);
    assert r[..][..k] == r[..k];
    assert s[..k] == before[ao..ao + k] == old(a[ao..ao + k]);
  }

  lemma BorrowMeansLess(r: seq<int32>, dec: bool, x: nat, y: nat)
    requires Val(r) - Pow(|r|) * Bit(dec) == x - y
    ensures dec <==> x < y
  {
    hide Val, Pow;
    ValBound(r);
  }

  /**
   `subtract_magnitude_raw`, for a longer minuend that starts at `xo`. The result is to start at the front, but
   the limbs above the last borrow are not moved there.
   */
  method SubtractRaw(x: array<int32>, xo: nat, n: nat, y: array<int32>, yo: nat, m: nat)
    returns (len: nat, ghost stop: nat)
    requires xo + n <= x.Length && yo + m <= y.Length && m < n && x != y
    requires Normal(x[xo..xo + n])
    modifies x
    ensures len <= n && SettledAt(old(x[xo..xo + n]), old(y[yo..yo + m]), stop)
    ensures Val(x[..len]) == old(Val(x[xo..xo + n]) - Val(y[yo..yo + m])) <==> old(x[stop..n] == x[xo + stop..xo + n])
    ensures old(x[stop..n] == x[xo + stop..xo + n]) ==> Normal(x[..len])
    ensures xo == 0 ==> Val(x[..len]) == old(Val(x[..n]) - Val(y[yo..yo + m])) && Normal(x[..len])
  {
    hide Val, Pow, Unsigned, SettledAt;
    ghost var s, t := x[xo..xo + n], y[yo..yo + m];
    ghost var stale := x[..n];
    var k := SubtractUntilSettled(x, x, xo, n, y, yo, m);
    stop := k;
    SettledInside(s, t, stop);
    len := n;
    ghost var d := x[..k];
    assert s[..stop] == old(x[xo..xo + stop]);
    assert x[..n] == d + stale[stop..];
    UpperPart(s, t, stop, d, stale[stop..]);
    if k == n {
      len := StripZeros(x, n);
    }
    assert stale[stop..] == old(x[stop..n]) && s[stop..] == old(x[xo + stop..xo + n]);
    assert stop < n ==> x[..n][n - 1] == stale[n - 1];
    assert xo == 0 ==> s == old(x[..n]);
  }

  lemma SettledInside(s: seq<int32>, t: seq<int32>, stop: nat)
    requires SettledAt(s, t, stop)
    ensures stop <= |s|
  {
  }

  /** The difference is right exactly when the limbs above the settled part are the minuend's. */
  lemma UpperPart(s: seq<int32>, t: seq<int32>, stop: nat, d: seq<int32>, upper: seq<int32>)
    requires stop <= |s| && |d| == stop && |upper| == |s| - stop && Val(d) == Val(s[..stop]) - Val(t)
    ensures Val(d + upper) == Val(s) - Val(t) <==> upper == s[stop..]
  {
    hide Val, Pow;
    ValConcat(d, upper);
    assert s == s[..stop] + s[stop..];
    ValConcat(s[..stop], s[stop..]);
    SameFactor(Pow(stop), Val(upper), Val(s[stop..]));
    if Val(upper) == Val(s[stop..]) {
      ValInjective(upper, s[stop..]);
    }
  }

  lemma SameFactor(p: nat, a: nat, b: nat)
    requires 0 < p
    ensures p * a == p * b <==> a == b
  {
  }

  /** Copies the limbs from place `start` up. */
  method CopyUpper(x: array<int32>, y: array<int32>, yo: nat, start: nat, m: nat)
    requires start <= m <= x.Length && yo + m <= y.Length && x != y
    modifies x
    ensures x[..m] == old(x[..start]) + y[yo + start..yo + m]
    ensures forall i :: m <= i < x.Length ==> x[i] == old(x[i])
  {
    var k := start;
    while k < m
      invariant start <= k <= m && x[..k] == old(x[..start]) + y[yo + start..yo + k]
      invariant forall i :: m <= i < x.Length ==> x[i] == old(x[i])
    {
      x[k] := y[yo + k];
      k := k + 1;
    }
  }

  /**
   `subtract_magnitude_raw_reverse`: the shorter number is subtracted from `other`. The difference is right, but
   the start of the number is reset only when the borrow reached the top limb.
   */
  method SubtractRawReverse(x: array<int32>, xo: nat, n: nat, y: array<int32>, yo: nat, m: nat)
    returns (len: nat, offset: nat, ghost stop: nat)
    requires xo + n <= x.Length && yo + m <= y.Length && n < m <= x.Length && x != y
    requires Normal(y[yo..yo + m])
    modifies x
    ensures len <= m && Normal(x[..len]) && Val(x[..len]) == old(Val(y[yo..yo + m]) - Val(x[xo..xo + n]))
    ensures SettledAt(old(y[yo..yo + m]), old(x[xo..xo + n]), stop)
    ensures offset == 0 <==> xo == 0 || stop == m
    ensures offset != 0 ==> offset == xo && len == m
    ensures forall i :: m <= i < x.Length ==> x[i] == old(x[i])
  {
    hide Val, Pow, Unsigned, SettledAt;
    ghost var s, t := y[yo..yo + m], x[xo..xo + n];
    var k := SubtractUntilSettled(x, y, yo, m, x, xo, n);
    stop := k;
    SettledInside(s, t, stop);
    ghost var d := x[..k];
    assert s[..stop] == old(y[yo..yo + stop]);
    if k < m {
      CopyUpper(x, y, yo, k, m);
      assert y[yo + stop..yo + m] == s[stop..];
      len, offset := m, xo;
      assert x[..m][m - 1] == s[m - 1];
    } else {
      assert x[..m] == d + [] == d + s[stop..];
      len := StripZeros(x, k);
      offset := 0;
    }
    UpperPart(s, t, stop, d, s[stop..]);
  }

  /** The equal-length difference is left with a leading zero limb. */
  ghost predicate LeavesLeadingZero(s: seq<int32>, t: seq<int32>) {
    |s| == |t| && var k := TopDifference(s, t);
      k < |s| && (BarelyAhead(s, t, k) || BarelyAhead(t, s, k))
  }

  /** What `subtract_magnitude` does with numbers of one length. */
  method SubtractSameLength(x: array<int32>, xo: nat, y: array<int32>, yo: nat, n: nat)
    returns (len: nat, flipped: bool)
    requires xo + n <= x.Length && yo + n <= y.Length && 0 < n && x != y
    modifies x
    ensures len <= x.Length && (flipped <==> old(Val(x[xo..xo + n]) < Val(y[yo..yo + n])))
    ensures Val(x[..len]) == old(if Val(x[xo..xo + n]) < Val(y[yo..yo + n])
                                 then Val(y[yo..yo + n]) - Val(x[xo..xo + n])
                                 else Val(x[xo..xo + n]) - Val(y[yo..yo + n]))
    ensures Normal(x[..len]) <==> !old(LeavesLeadingZero(x[xo..xo + n], y[yo..yo + n]))
  {
    hide Val, Unsigned, BarelyAhead, TopDifference;
    ghost var s, t := x[xo..xo + n], y[yo..yo + n];
    var i := n - 1;
    while x[xo + i] == y[yo + i] && i > 0
      invariant 0 <= i < n && s[i + 1..] == t[i + 1..]
    {
      assert s[i..] == [s[i]] + s[i + 1..] && t[i..] == [t[i]] + t[i + 1..];
      i := i - 1;
    }
    var v1, v2 := x[xo + i], y[yo + i];
    if v1 == v2 {
      assert s == [s[0]] + s[1..] && t == [t[0]] + t[1..];
      TopDifferenceIs(s, t, n);
      ValEmpty();
      assert x[..0] == [];
      return 0, false;
    }
    TopDifferenceIs(s, t, i);
    UnsignedInjective2(v1, v2);
    if UnsignedGreaterThan(v1, v2) {
      FirstDifference(t, s, i);
      NotBoth(s, t, i);
      len := SubtractTruncated(x, x, xo, y, yo, n, i);
      flipped := false;
    } else {
      FirstDifference(s, t, i);
      NotBoth(t, s, i);
      TopDifferenceIs(t, s, i);
      len := SubtractTruncated(x, y, yo, x, xo, n, i);
      flipped := true;
    }
  }

  lemma TopDifferenceIs(s: seq<int32>, t: seq<int32>, k: nat)
    requires |s| == |t| && k <= |s|
    requires if k == |s| then s == t else s[k] != t[k] && s[k + 1..] == t[k + 1..]
    ensures TopDifference(s, t) == k
  {
  }

  lemma NotBoth(a: seq<int32>, b: seq<int32>, k: nat)
    requires k < |a| == |b| && Unsigned(a[k]) > Unsigned(b[k])
    ensures !BarelyAhead(b, a, k)
  {
  }

  /** Where the borrow of a subtraction of the shorter `t` from `s` is settled. */
  ghost function StopOf(s: seq<int32>, t: seq<int32>, k: nat): (stop: nat)
    requires |t| <= k <= |s| && Val(t) <= Val(s)
    ensures k <= stop <= |s| && Val(t) <= Val(s[..stop])
    decreases |s| - k
  {
    assert s[..|s|] == s;
    if Val(t) <= Val(s[..k]) then k else StopOf(s, t, k + 1)
  }

  lemma {:induction false} StopIs(s: seq<int32>, t: seq<int32>, k: nat, stop: nat)
    requires |t| <= k <= |s| && Val(t) <= Val(s)
    requires SettledAt(s, t, stop) && k <= stop
    ensures StopOf(s, t, k) == stop
    decreases |s| - k
  {
    hide Val;
    assert s[..|s|] == s;
    if k < stop {
      PrefixGrows(s, k, stop - 1);
      StopIs(s, t, k + 1, stop);
    }
  }

  lemma StopFound(s: seq<int32>, t: seq<int32>, stop: nat)
    requires SettledAt(s, t, stop) && Val(t) <= Val(s)
    ensures |t| <= stop <= |s| && StopOf(s, t, |t|) == stop
  {
    StopIs(s, t, |t|, stop);
  }

  lemma {:induction false} PrefixGrows(s: seq<int32>, i: nat, j: nat)
    requires i <= j <= |s|
    ensures Val(s[..i]) <= Val(s[..j])
  {
    hide Val, Pow, Unsigned;
    if i < j {
      PrefixGrows(s, i, j - 1);
      ValPrefix(s, j - 1);
      TimesMonotone(0, Unsigned(s[j - 1]), Pow(j - 1));
    }
  }

  /**
   When the number in `storage` from `xo` on, of `n` limbs, minus the number `t` is computed rightly: when it starts
   at the front or has the length of `t`; when it is longer, if the limbs above the last borrow happen to be where
   they are left; when it is shorter, if its storage is replaced, the borrow reaches the top, or the difference
   happens to be found again where the number started.
   */
  ghost predicate SubtractsRightly(storage: seq<int32>, xo: nat, n: nat, t: seq<int32>)
    requires xo + n <= |storage| && Normal(storage[xo..xo + n]) && Normal(t)
  {
    var s := storage[xo..xo + n];
    xo == 0 || n == |t| ||
    if n > |t| then
      LongerIsLarger(t, s);
      ShiftedInto(storage, xo, n, t)
    else
      LongerIsLarger(s, t);
      |storage| < |t| || StopOf(t, s, n) == |t| || FoundAgain(storage, xo, LimbsOf(Val(t) - Val(s)))
  }

  /** The limbs above the last borrow are already where the number is to start at the front. */
  ghost predicate ShiftedInto(storage: seq<int32>, xo: nat, n: nat, t: seq<int32>)
    requires xo + n <= |storage| && |t| <= n && Val(t) <= Val(storage[xo..xo + n])
  {
    var stop := StopOf(storage[xo..xo + n], t, |t|);
    storage[stop..n] == storage[xo + stop..xo + n]
  }

  /** The limbs `d`, stored at the front, are also read from `xo` on. */
  ghost predicate FoundAgain(storage: seq<int32>, xo: nat, d: seq<int32>) {
    |d| <= |storage| && xo + |d| <= |storage| && (d + storage[|d|..])[xo..xo + |d|] == d
  }

  /** The number of `len` limbs from `ro` on is `x`. */
  ghost predicate Reads(r: array<int32>, ro: nat, len: nat, x: nat)
    reads r
  {
    ro + len <= r.Length && Val(r[ro..ro + len]) == x
  }

  function Distance(x: nat, y: nat): nat {
    if x < y then y - x else x - y
  }

  /**
   `subtract_magnitude`: the magnitude of the difference and whether the sign changes, for numbers that start
   anywhere in their storage. When the result is right it is free of leading zeros except when the numbers have one
   length and the larger is barely ahead. The capacity on record stays the old one even when the storage is replaced.
   */
  method SubtractMagnitude(x: array<int32>, xo: nat, n: nat, y: array<int32>, yo: nat, m: nat)
    returns (r: array<int32>, ro: nat, len: nat, flipped: bool, capacity: nat)
    requires xo + n <= x.Length && yo + m <= y.Length && 0 < n && 0 < m && x != y
    requires Normal(x[xo..xo + n]) && Normal(y[yo..yo + m])
    modifies x
    ensures (r == x || fresh(r)) && capacity == x.Length && (xo == 0 ==> ro == 0)
    ensures flipped <==> old(Val(x[xo..xo + n]) < Val(y[yo..yo + m]))
    ensures Reads(r, ro, len, Distance(old(Val(x[xo..xo + n])), old(Val(y[yo..yo + m]))))
      <==> old(SubtractsRightly(x[..], xo, n, y[yo..yo + m]))
    ensures old(SubtractsRightly(x[..], xo, n, y[yo..yo + m])) ==>
      (Normal(r[ro..ro + len]) <==> !old(LeavesLeadingZero(x[xo..xo + n], y[yo..yo + m])))
    ensures len <= capacity <==>
      m <= n || m <= x.Length || old(Val(y[yo..yo + m]) - Val(x[xo..xo + n])) < Pow(x.Length)
  {
    hide Val, Unsigned, LeavesLeadingZero, Normal, FoundAgain, ShiftedInto, StopOf, LimbsOf;
    NoLeadingZero(x[xo..xo + n], y[yo..yo + m]);
    ghost var before, s, t := x[..], x[xo..xo + n], y[yo..yo + m];
    assert before[xo..xo + n] == s;
    r, ro, flipped, capacity := x, 0, false, x.Length;
    if n == m {
      len, flipped := SubtractSameLength(x, xo, y, yo, n);
      assert r[0..0 + len] == r[..len];
    } else if n > m {
      LongerIsLarger(t, s);
      len := SubtractLonger(x, xo, n, y, yo, m);
    } else {
      LongerIsLarger(s, t);
      flipped := true;
      if x.Length >= m {
        ro, len := SubtractFromLonger(x, xo, n, y, yo, m);
      } else {
        r := CopyLimbs(y, yo, m, m);
        assert r[..m] == r[0..0 + m] == t;
        len := SubtractLonger(r, 0, m, x, xo, n);
        LengthFits(r[0..0 + len], x.Length);
      }
    }
  }

  lemma NoLeadingZero(s: seq<int32>, t: seq<int32>)
    ensures |s| != |t| ==> !LeavesLeadingZero(s, t)
  {
  }

  lemma LengthFits(s: seq<int32>, capacity: nat)
    requires Normal(s)
    ensures |s| <= capacity <==> Val(s) < Pow(capacity)
  {
    hide Val, Pow;
    ValBound(s);
    if |s| <= capacity {
      PowGrows(|s|, capacity);
    } else {
      ValNormalized(s);
      PowGrows(capacity, |s| - 1);
    }
  }

  /** The branch for a longer minuend. */
  method SubtractLonger(x: array<int32>, xo: nat, n: nat, y: array<int32>, yo: nat, m: nat) returns (len: nat)
    requires xo + n <= x.Length && yo + m <= y.Length && m < n && x != y
    requires Normal(x[xo..xo + n]) && Val(y[yo..yo + m]) < Val(x[xo..xo + n])
    modifies x
    ensures len <= n
    ensures var rightly := xo == 0 || old(ShiftedInto(x[..], xo, n, y[yo..yo + m]));
      && (Reads(x, 0, len, old(Val(x[xo..xo + n]) - Val(y[yo..yo + m]))) <==> rightly)
      && (rightly ==> Normal(x[0..0 + len]))
  {
    hide Val, Normal;
    ghost var before, s, t := x[..], x[xo..xo + n], y[yo..yo + m];
    ghost var stop;
    assert before[xo..xo + n] == s;
    len, stop := SubtractRaw(x, xo, n, y, yo, m);
    StopFound(s, t, stop);
    assert x[0..0 + len] == x[..len];
    assert before[stop..n] == old(x[stop..n]);
    assert before[xo + stop..xo + n] == old(x[xo + stop..xo + n]);
  }

  /** The branch for a longer subtrahend whose limbs the storage has room for. */
  method SubtractFromLonger(x: array<int32>, xo: nat, n: nat, y: array<int32>, yo: nat, m: nat)
    returns (ro: nat, len: nat)
    requires xo + n <= x.Length && yo + m <= y.Length && n < m <= x.Length && x != y
    requires Normal(y[yo..yo + m]) && Val(x[xo..xo + n]) < Val(y[yo..yo + m])
    modifies x
    ensures len <= m && (xo == 0 ==> ro == 0)
    ensures var d := old(Val(y[yo..yo + m]) - Val(x[xo..xo + n]));
      var rightly :=
        xo == 0 || old(StopOf(y[yo..yo + m], x[xo..xo + n], n)) == m || FoundAgain(old(x[..]), xo, LimbsOf(d));
      && (Reads(x, ro, len, d) <==> rightly)
      && (rightly ==> Normal(x[ro..ro + len]))
  {
    hide Val, Normal, LimbsOf, FoundAgain;
    ghost var before, s, t := x[..], x[xo..xo + n], y[yo..yo + m];
    ghost var stop;
    len, ro, stop := SubtractRawReverse(x, xo, n, y, yo, m);
    StopFound(t, s, stop);
    assert x[0..0 + len] == x[..len];
    LimbsAreUnique(x[..len]);
    if ro != 0 {
      assert x[..] == x[..m] + before[m..];
      ReadAgain(x, before, xo, LimbsOf(Val(t) - Val(s)));
    }
  }

  lemma ReadAgain(x: array<int32>, before: seq<int32>, xo: nat, d: seq<int32>)
    requires |d| <= |before| == x.Length && x[..] == d + before[|d|..] && Normal(d)
    ensures Reads(x, xo, |d|, Val(d)) <==> FoundAgain(before, xo, d)
    ensures FoundAgain(before, xo, d) ==> Normal(x[xo..xo + |d|])
  {
    hide Val;
    if xo + |d| <= x.Length {
      assert x[xo..xo + |d|] == x[..][xo..xo + |d|];
      if Val(x[xo..xo + |d|]) == Val(d) {
        ValInjective(x[xo..xo + |d|], d);
      }
    }
  }

  /** Two numbers of three limbs whose difference keeps a leading zero, although numbers are to have none. */
  lemma LeadingZeroHappens()
    ensures exists s: seq<int32>, t: seq<int32> :: Normal(s) && Normal(t) && LeavesLeadingZero(s, t)
  {
    hide Val;
    var s: seq<int32>, t: seq<int32> := [0, 0, 2], [5, -1, 1];
    TopDifferenceIs(s, t, 2);
    assert s[..1] == [0] && t[..1] == [5];
    OneLimb(0);
    OneLimb(5);
    assert BarelyAhead(s, t, 2);
    assert LeavesLeadingZero(s, t);
  }

  /**
   A number that starts at slot 1 of its storage, as a right shift by 32 leaves it, and a subtrahend that it gets wrong.
   */
  lemma StaleLimbsHappen()
    ensures exists storage: seq<int32>, t: seq<int32>, stop: nat ::
      && |storage| == 4 && |t| == 1 && Normal(t) && Normal(storage[1..3]) && SettledAt(storage[1..3], t, stop)
      && storage[stop..2] != storage[1 + stop..3]
  {
    hide Val;
    var storage: seq<int32>, t: seq<int32> := [9, 5, 7, 0], [1];
    assert storage[1..3] == [5, 7] && [5, 7][..1] == [5];
    OneLimb(5);
    OneLimb(1);
    assert SettledAt(storage[1..3], t, 1);
    assert storage[1..2] == [5] && storage[1 + 1..3] == [7];
  }

  /** A number that starts at slot 1, and a longer one: the borrow stops below the top, so the start is not reset. */
  lemma StartNotReset()
    ensures exists storage: seq<int32>, t: seq<int32>, stop: nat ::
      && |storage| == 4 && Normal(storage[1..2]) && Normal(t) && |t| == 2
      && SettledAt(t, storage[1..2], stop) && stop != |t|
  {
    hide Val;
    var storage: seq<int32>, t: seq<int32> := [9, 1, 0, 0], [5, 7];
    assert storage[1..2] == [1] && t[..1] == [5];
    OneLimb(5);
    OneLimb(1);
    assert SettledAt(t, storage[1..2], 1);
  }

  /** Four limbs of capacity, and a difference of eight: the storage is replaced and the capacity is not. */
  lemma CapacityNotUpdated()
    ensures exists s: seq<int32>, t: seq<int32> ::
      |s| == 1 && |t| == 8 && Normal(s) && Normal(t) && Pow(4) <= Val(t) - Val(s)
  {
    hide Val, Pow;
    AllOnes(8);
    OneLimb(1);
    UnsignedOne();
    PowGrows(4, 7);
    PowNext(7);
    var s: seq<int32> := [1];
    assert |s| == 1 && Normal(s) && Normal(Ones(8)) && Pow(4) <= Val(Ones(8)) - Val(s);
  }
}
