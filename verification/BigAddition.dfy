/** `add_magnitude` of big integers, and the addition of one. */
module BigAddition {
  import opened Int32
  import opened Limbs
  import opened Magnitudes
  import opened Shifts

  /** Adds the shorter number `b` to `a`: the common columns, and then the carry up the rest of `a`. */
  method AddJoined(r: array<int32>, ro: nat, a: array<int32>, ao: nat, n: nat, b: array<int32>, bo: nat, m: nat)
    returns (inc: bool)
    requires ro + n <= r.Length && ao + n <= a.Length && bo + m <= b.Length && m <= n
    requires (r == a ==> ro <= ao) && r != b
    modifies r
    ensures Val(r[ro..ro + n]) + Pow(n) * Bit(inc) == old(Val(a[ao..ao + n]) + Val(b[bo..bo + m]))
  {
    hide Val, Pow;
    ghost var s, t := a[ao..ao + n], b[bo..bo + m];
    assert s == a[ao..ao + m] + a[ao + m..ao + m + (n - m)];
    ValConcat(s[..m], s[m..]);
    inc := AddInto(r, ro, a, ao, b, bo, m);
    ghost var low := r[ro..ro + m];
    ghost var carry := inc;
    assert a[ao + m..ao + m + (n - m)] == s[m..];
    inc := CarryInto(r, ro + m, a, ao + m, n - m, inc);
    ghost var high := r[ro + m..ro + m + (n - m)];
    assert r[ro..ro + n] == low + high;
    ValConcat(low, high);
    PowSum(m, n - m);
    PartsAdded(Val(low), Val(high), Val(s[..m]), Val(s[m..]), Val(t), Pow(m), Pow(n - m), Bit(carry), Bit(inc));
  }

  lemma PartsAdded(low: int, high: int, a: int, a': int, b: int, p: int, p': int, carry: int, inc: int)
    requires low + p * carry == a + b && high + p' * inc == a' + carry
    ensures low + p * high + p * p' * inc == a + p * a' + b
  {
    assert p * (high + p' * inc) == p * (a' + carry);
  }

  /** The capacity that the storage of the sum gets. */
  function Room(xCapacity: nat, xo: nat, n: nat, yCapacity: nat, m: nat): (room: nat)
    requires 0 < xCapacity && xo + n <= xCapacity && m <= yCapacity
    ensures n <= room && m <= room
  {
    if n > m && xCapacity - xo > n then xCapacity
    else
      var longer := if n >= m then n else m;
      if xCapacity < longer then DoubledUntil(xCapacity, longer)
      else if xCapacity == longer then DoubledUntil(xCapacity, longer + 1)
      else if n >= m then xCapacity
      else yCapacity
  }

  /**
   The sum gets a storage of exactly as many limbs as the second, longer number: because doubling the capacity of the
   first hits that number, or because the first has more room and a storage of the second's capacity is taken.
   */
  ghost predicate NoPlaceForCarry(xCapacity: nat, n: nat, yCapacity: nat, m: nat) {
    && n < m
    && if xCapacity < m then exists k: nat :: xCapacity * TwoTo(k) == m else m < xCapacity && yCapacity == m
  }

  lemma {:induction false} DoublingHits(actual: nat, needed: nat, k: nat)
    requires 0 < actual && actual * TwoTo(k) == needed
    ensures DoubledUntil(actual, needed) == needed
    decreases k
  {
    if k > 0 {
      assert actual * TwoTo(k) == 2 * actual * TwoTo(k - 1);
      TimesMonotone(1, TwoTo(k - 1), 2 * actual);
      DoublingHits(2 * actual, needed, k - 1);
    }
  }

  lemma {:induction false} DoublingReaches(actual: nat, needed: nat) returns (k: nat)
    requires 0 < actual
    ensures DoubledUntil(actual, needed) == actual * TwoTo(k)
    decreases needed - actual
  {
    if actual < needed {
      k := DoublingReaches(2 * actual, needed);
      assert 2 * actual * TwoTo(k) == actual * TwoTo(k + 1);
      k := k + 1;
    } else {
      k := 0;
    }
  }

  /** The room is that of the longer number exactly when there is no place for a carry. */
  lemma RoomIsTight(xCapacity: nat, xo: nat, n: nat, yCapacity: nat, m: nat)
    requires 0 < xCapacity && xo + n <= xCapacity && m <= yCapacity
    ensures var room := Room(xCapacity, xo, n, yCapacity, m);
      if NoPlaceForCarry(xCapacity, n, yCapacity, m) then room == m else n < room && m < room
  {
    if n < m && xCapacity < m {
      if k: nat :| xCapacity * TwoTo(k) == m {
        DoublingHits(xCapacity, m, k);
      } else {
        var k := DoublingReaches(xCapacity, m);
      }
    }
  }

  /** A sum has at most one limb more than its longer operand. */
  lemma SumFits(s: seq<int32>, t: seq<int32>, room: nat)
    requires |s| < room && |t| < room
    ensures Val(s) + Val(t) < Pow(room)
  {
    hide Val, Pow;
    ValBound(s);
    ValBound(t);
    PowGrows(|s|, room - 1);
    PowGrows(|t|, room - 1);
    PowNext(room - 1);
  }

  /** A sum with a carry out needs one limb more than its longer operand. */
  lemma CarryFits(s: seq<int32>, inc: bool, room: nat)
    requires |s| <= room
    ensures !inc || |s| < room <==> Val(s) + Pow(|s|) * Bit(inc) < Pow(room)
  {
    hide Val, Pow;
    ValBound(s);
    PowGrows(|s|, room);
    if |s| < room {
      PowNext(|s|);
      PowGrows(|s| + 1, room);
    }
  }

  /** Puts the carry behind the columns, when the capacity leaves a place for it. */
  method PutCarry(r: array<int32>, ro: nat, n: nat, inc: bool, ghost x: nat) returns (len: nat, fits: bool)
    requires 0 < n && ro + n <= r.Length && Pow(n - 1) <= x == Val(r[ro..ro + n]) + Pow(n) * Bit(inc)
    modifies r
    ensures fits <==> !inc || ro + n < r.Length
    ensures fits ==> ro + len <= r.Length && Val(r[ro..ro + len]) == x && Normal(r[ro..ro + len])
  {
    hide Val, Pow, Unsigned;
    ghost var s := r[ro..ro + n];
    len, fits := n, true;
    if inc {
      fits := ro + n < r.Length;
      if fits {
        ValSnoc(s, 1);
        UnsignedOne();
        r[ro + n] := 1;
        len := n + 1;
        assert r[ro..ro + len] == s + [1];
      }
    } else {
      ValNormalized(s);
    }
  }

  /** Adds the shorter number to the longer, and stores the carry. */
  method AddTo(r: array<int32>, ro: nat, a: array<int32>, ao: nat, n: nat, b: array<int32>, bo: nat, m: nat)
    returns (len: nat, fits: bool)
    requires ro + n <= r.Length && ao + n <= a.Length && bo + m <= b.Length && 0 < n && m <= n
    requires (r == a ==> ro <= ao) && r != b && (ro == 0 || ro + n < r.Length) && Normal(a[ao..ao + n])
    modifies r
    ensures fits <==> old(Val(a[ao..ao + n]) + Val(b[bo..bo + m])) < Pow(r.Length)
    ensures fits ==> ro + len <= r.Length && Normal(r[ro..ro + len])
    ensures fits ==> Val(r[ro..ro + len]) == old(Val(a[ao..ao + n]) + Val(b[bo..bo + m]))
  {
    hide Val, Pow, Normal;
    ghost var s, t := a[ao..ao + n], b[bo..bo + m];
    SumIsLarge(s, Val(t));
    var inc := AddJoined(r, ro, a, ao, n, b, bo, m);
    CarryFits(r[ro..ro + n], inc, r.Length);
    len, fits := PutCarry(r, ro, n, inc, Val(s) + Val(t));
  }

  lemma SumIsLarge(s: seq<int32>, y: nat)
    requires s != [] && Normal(s)
    ensures Pow(|s| - 1) <= Val(s) + y
  {
    hide Val, Pow;
    ValNormalized(s);
  }

  lemma WhenItFits(s: seq<int32>, t: seq<int32>, xCapacity: nat, xo: nat, yCapacity: nat)
    requires 0 < xCapacity && xo + |s| <= xCapacity && |t| <= yCapacity
    ensures Val(s) + Val(t) < Pow(Room(xCapacity, xo, |s|, yCapacity, |t|)) <==>
      !(NoPlaceForCarry(xCapacity, |s|, yCapacity, |t|) && Pow(|t|) <= Val(s) + Val(t))
    ensures |t| <= |s| ==> !NoPlaceForCarry(xCapacity, |s|, yCapacity, |t|)
  {
    hide Val, Pow, Room;
    RoomIsTight(xCapacity, xo, |s|, yCapacity, |t|);
    if !NoPlaceForCarry(xCapacity, |s|, yCapacity, |t|) {
      SumFits(s, t, Room(xCapacity, xo, |s|, yCapacity, |t|));
    }
  }

  /**
   The sum, in place when the first number is longer and has a place for a carry, otherwise at the front of its own
   storage or of new storage; a number added to itself goes to new storage. A carry out needs a place there: the
   check that follows the last store fails exactly when the sum needs more limbs than the new capacity.
   */
  method AddMagnitude(x: array<int32>, xo: nat, n: nat, y: array<int32>, yo: nat, m: nat)
    returns (r: array<int32>, ro: nat, len: nat, fits: bool)
    requires xo + n <= x.Length && yo + m <= y.Length && 0 < n && 0 < m && (x == y ==> xo == yo && n == m)
    requires Normal(x[xo..xo + n]) && Normal(y[yo..yo + m])
    modifies x
    ensures (r == x || fresh(r)) && r.Length == Room(x.Length, xo, n, y.Length, m)
    ensures fits <==> old(Val(x[xo..xo + n]) + Val(y[yo..yo + m])) < Pow(Room(x.Length, xo, n, y.Length, m))
    ensures fits <==>
      !(NoPlaceForCarry(x.Length, n, y.Length, m) && Pow(m) <= old(Val(x[xo..xo + n]) + Val(y[yo..yo + m])))
    ensures m <= n ==> fits
    ensures GoodCapacity(x.Length) && GoodCapacity(y.Length) ==> GoodCapacity(r.Length)
    ensures fits ==> ro + len <= r.Length && Normal(r[ro..ro + len])
    ensures fits ==> Val(r[ro..ro + len]) == old(Val(x[xo..xo + n]) + Val(y[yo..yo + m]))
  {
    hide Val, Pow, Normal, NoPlaceForCarry, GoodCapacity;
    ghost var s, t := x[xo..xo + n], y[yo..yo + m];
    WhenItFits(s, t, x.Length, xo, y.Length);
    r, ro := x, 0;
    if n > m && x.Length - xo > n {
      ro := xo;
      len, fits := AddTo(x, xo, x, xo, n, y, yo, m);
    } else if n >= m {
      if x.Length == n {
        r := NewZeros(x.Length, n + 1);
      } else if x == y {
        r := new int32[x.Length](_ => 0);
      }
      len, fits := AddTo(r, 0, x, xo, n, y, yo, m);
    } else {
      if x.Length <= m {
        r := NewZeros(x.Length, if x.Length < m then m else m + 1);
      } else {
        r := new int32[y.Length](_ => 0);
      }
      len, fits := AddTo(r, 0, y, yo, m, x, xo, n);
    }
  }

  /** `add_integer(1)` on a number that is not negative and starts at the front; its storage is doubled when needed. */
  method AddOne(q: array<int32>, n: nat) returns (r: array<int32>, len: nat)
    requires n <= q.Length && Normal(q[..n])
    modifies q
    ensures (r == q || fresh(r)) && len <= r.Length && Normal(r[..len])
    ensures q.Length == 0 || GoodCapacity(q.Length) ==> GoodCapacity(r.Length)
    ensures Val(r[..len]) == old(Val(q[..n])) + 1
  {
    hide Val, Pow, Unsigned, MbiAdd, GoodCapacity;
    ghost var s := q[..n];
    FourIsGood();
    TwiceIsGood(q.Length);
    ghost var sum := Val(s) + 1;
    ValEmpty();
    OneLimb(1);
    UnsignedOne();
    r := q;
    if n == 0 {
      if q.Length == 0 {
        r := new int32[4](_ => 0);
      }
      r[0] := 1;
      assert r[..1] == [1];
      return r, 1;
    }
    SumIsLarge(s, 1);
    assert s == [s[0]] + q[1..1 + (n - 1)];
    ValCons(s[0], q[1..1 + (n - 1)]);
    var c := MbiAdd(q[0], 1);
    q[0] := c.limb;
    assert q[1..1 + (n - 1)] == s[1..];
    var inc := CarryInto(q, 1, q, 1, n - 1, c.carry);
    ghost var high := q[1..1 + (n - 1)];
    assert q[0..0 + n] == [q[0]] + high;
    ValCons(q[0], high);
    PowNext(n - 1);
    assert Val(q[0..0 + n]) + Pow(n) * Bit(inc) == sum;
    if inc && n == q.Length {
      ValBound(s);
      r := DoubleZeros(q);
    }
    var fits;
    len, fits := PutCarry(r, 0, n, inc, sum);
    assert r[..len] == r[0..0 + len];
  }

  /** The storage is doubled after a carry out of its last limb: only the lowest limb is copied, as all are zero. */
  method DoubleZeros(q: array<int32>) returns (r: array<int32>)
    requires 0 < q.Length && Val(q[0..0 + q.Length]) == 0
    ensures fresh(r) && r.Length == 2 * q.Length && r[0..0 + q.Length] == q[0..0 + q.Length]
  {
    hide Val;
    AllZero(q[0..0 + q.Length]);
    assert q[0..0 + q.Length][0] == q[0];
    var v := q[0];
    r := new int32[2 * q.Length](_ => 0);
    r[0] := v;
  }

  lemma AllZero(s: seq<int32>)
    requires Val(s) == 0
    ensures forall i :: 0 <= i < |s| ==> s[i] == 0
  {
    var t := seq(|s|, _ => 0 as int32);
    ZeroValue(t);
    ValInjective(s, t);
  }

  lemma {:induction false} ZeroValue(s: seq<int32>)
    requires forall i :: 0 <= i < |s| ==> s[i] == 0
    ensures Val(s) == 0
  {
    if s != [] {
      ZeroValue(s[..|s| - 1]);
      UnsignedZero();
    }
  }

  /** Adding one to a number that fills eight places, from a number whose storage has four: there is no ninth. */
  lemma CarryDoesNotFit()
    ensures exists s: seq<int32>, t: seq<int32> ::
      && |s| == 1 && |t| == 8 && Normal(s) && Normal(t)
      && Room(4, 0, |s|, 8, |t|) == 8 && Pow(8) <= Val(s) + Val(t)
  {
    hide Val, Pow;
    AllOnes(8);
    OneLimb(1);
    UnsignedOne();
    assert DoubledUntil(4, 8) == DoubledUntil(8, 8) == 8;
    var s: seq<int32> := [1];
    assert |s| == 1 && Normal(s) && Pow(8) <= Val(s) + Val(Ones(8));
  }

  function Ones(k: nat): (s: seq<int32>)
    ensures |s| == k && forall i :: 0 <= i < k ==> s[i] == -1
  {
    seq(k, _ => -1)
  }

  lemma {:induction false} AllOnes(k: nat)
    ensures Val(Ones(k)) == Pow(k) - 1
  {
    if k > 0 {
      AllOnes(k - 1);
      assert Ones(k)[..k - 1] == Ones(k - 1);
    }
  }
}
