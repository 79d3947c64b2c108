/** Bit shifts of limb strings, by less than one limb: what normalises a divisor and undoes it again. */
module Shifts {
  import opened Int32
  import opened Limbs
  import opened Magnitudes

  function TwoTo(n: nat): (p: nat)
    ensures 0 < p
  {
    if n == 0 then 1 else 2 * TwoTo(n - 1)
  }

  lemma {:induction false} TwoToSum(m: nat, n: nat)
    ensures TwoTo(m + n) == TwoTo(m) * TwoTo(n)
  {
    if n > 0 {
      TwoToSum(m, n - 1);
    }
  }

  lemma TwoToBase(n: nat)
    requires n <= 32
    ensures TwoTo(n) * TwoTo(32 - n) == BASE
  {
    hide TwoTo;
    TwoToSum(n, 32 - n);
    TwoToSmall();
    TwoToSum(16, 16);
    TwoToSum(8, 8);
    TwoToSum(4, 4);
    TwoToSum(2, 2);
  }

  lemma TwoToSmall()
    ensures TwoTo(0) == 1 && TwoTo(1) == 2 && TwoTo(2) == 4
  {
  }

  /** `x |<< n | c`, for a `c` that fits the vacated bits. */
  function ShiftLeftOr(x: int32, n: nat, c: int32): int32 {
    Wrap(Unsigned(x) * TwoTo(n) + Unsigned(c))
  }

  /** `x |>>> n`. */
  function ShiftRight(x: int32, n: nat): int32 {
    Wrap(Unsigned(x) / TwoTo(n))
  }

  lemma UnsignedWrap(x: nat)
    ensures Unsigned(Wrap(x)) == x % BASE
  {
    var q, r := x / BASE, x % BASE;
    assert x == BASE * q + r;
    if r < 0x8000_0000 {
      SameRest(x + 0x8000_0000, q, r + 0x8000_0000);
    } else {
      SameRest(x + 0x8000_0000, q + 1, r - 0x8000_0000);
    }
  }

  lemma SameRest(x: int, q: int, r: int)
    requires x == BASE * q + r && 0 <= r < BASE
    ensures x % BASE == r
  {
  }

  lemma DividedBy(x: nat, g: nat)
    requires 0 < g
    ensures x == x / g * g + x % g && 0 <= x % g < g && 0 <= x / g
  {
  }

  /** The bits that leave on the right. */
  function LowBits(x: int32, n: nat): nat {
    Unsigned(x) % TwoTo(n)
  }

  /** Shifting a word left splits it at the bit that leaves. */
  lemma LeftColumn(x: int32, n: nat, c: int32)
    requires n <= 32 && Unsigned(c) < TwoTo(n)
    ensures Unsigned(ShiftRight(x, 32 - n)) * BASE + Unsigned(ShiftLeftOr(x, n, c)) ==
      Unsigned(x) * TwoTo(n) + Unsigned(c)
    ensures Unsigned(ShiftRight(x, 32 - n)) < TwoTo(n)
  {
    hide TwoTo, Unsigned, ShiftRight, ShiftLeftOr;
    var q, r := ShiftRightParts(x, 32 - n);
    ShiftLeftIs(x, n, c);
    UnsignedIsSmall(x);
    TwoToBase(n);
    LeftSplit(Unsigned(x), TwoTo(n), TwoTo(32 - n), Unsigned(c), q, r);
  }

  lemma UnsignedIsSmall(x: int32)
    ensures Unsigned(x) < BASE
  {
  }

  lemma ShiftRightParts(x: int32, n: nat) returns (q: nat, r: nat)
    ensures Unsigned(x) == q * TwoTo(n) + r && r < TwoTo(n)
    ensures r == LowBits(x, n) && q == Unsigned(x) / TwoTo(n)
    ensures Unsigned(ShiftRight(x, n)) == q % BASE
  {
    DividedBy(Unsigned(x), TwoTo(n));
    q, r := Unsigned(x) / TwoTo(n), Unsigned(x) % TwoTo(n);
    UnsignedWrap(q);
  }

  lemma ShiftLeftIs(x: int32, n: nat, c: int32)
    ensures Unsigned(ShiftLeftOr(x, n, c)) == (Unsigned(x) * TwoTo(n) + Unsigned(c)) % BASE
  {
    UnsignedWrap(Unsigned(x) * TwoTo(n) + Unsigned(c));
  }

  lemma LeftSplit(u: nat, p: nat, g: nat, c: nat, q: nat, r: nat)
    requires p * g == BASE && u == q * g + r && r < g && c < p && u < BASE
    ensures (u * p + c) % BASE == r * p + c && u * p + c == q * BASE + (r * p + c) && q < p && q % BASE == q
  {
    assert u * p == q * (p * g) + r * p;
    TimesMonotone(r + 1, g, p);
    assert (u * p + c) / BASE == q;
    if p <= q {
      TimesMonotone(p, q, g);
    }
    TimesMonotone(1, g, q);
  }

  /** Limb `i` of a number shifted left by less than a word, with what the limb below gives to it. */
  function ShiftedAt(s: seq<int32>, bits: nat, i: nat): int32
    requires i < |s| && bits <= 32
  {
    ShiftLeftOr(s[i], bits, if i == 0 then 0 else ShiftRight(s[i - 1], 32 - bits))
  }

  function ShiftedLeft(s: seq<int32>, bits: nat): (r: seq<int32>)
    requires bits <= 32
    ensures |r| == |s|
  {
    seq(|s|, i requires 0 <= i < |s| => ShiftedAt(s, bits, i))
  }

  /** What leaves the top limb. */
  function HeadOf(s: seq<int32>, bits: nat): int32
    requires bits <= 32
  {
    if s == [] then 0 else ShiftRight(s[|s| - 1], 32 - bits)
  }

  /** Shifting left multiplies, when the word that leaves at the top is counted. */
  lemma {:induction false} ShiftedLeftIs(s: seq<int32>, bits: nat)
    requires bits <= 32
    ensures Val(ShiftedLeft(s, bits)) + Pow(|s|) * Unsigned(HeadOf(s, bits)) == Val(s) * TwoTo(bits)
    ensures Unsigned(HeadOf(s, bits)) < TwoTo(bits)
  {
    hide Val, Pow, Unsigned, TwoTo, ShiftLeftOr, ShiftRight;
    ValEmpty();
    UnsignedZero();
    if s != [] {
      var n := |s| - 1;
      var low := s[..n];
      ShiftedLeftIs(low, bits);
      LeftColumn(s[n], bits, HeadOf(low, bits));
      ProductColumn(Val(ShiftedLeft(low, bits)), Val(low), TwoTo(bits), 0, Pow(n), Unsigned(ShiftedAt(s, bits, n)),
                    Unsigned(HeadOf(s, bits)), Unsigned(s[n]), 0, Unsigned(HeadOf(low, bits)));
      PowNext(n);
      assert s[..n + 1] == s;
      ValPrefix(s, n);
      ValSnoc(ShiftedLeft(low, bits), ShiftedAt(s, bits, n));
      assert ShiftedLeft(s, bits) == ShiftedLeft(low, bits) + [ShiftedAt(s, bits, n)];
    }
  }

  /** The loop from the top limb down, into other storage or to the same or a higher place. */
  method ShiftDown(dst: array<int32>, src: array<int32>, so: nat, n: nat, at: nat, bits: nat)
    requires 0 < n && so + n <= src.Length && at + n <= dst.Length && bits <= 32
    requires dst == src ==> so <= at
    modifies dst
    ensures dst[at..at + n] == ShiftedLeft(old(src[so..so + n]), bits)
    ensures forall i :: 0 <= i < dst.Length && !(at <= i < at + n) ==> dst[i] == old(dst[i])
  {
    hide ShiftLeftOr, ShiftRight;
    ghost var s := src[so..so + n];
    var i := so + n - 1;
    var j := at + n - 1;
    var val1 := src[i];
    while i != so
      invariant so <= i < so + n && j == at + (i - so) && val1 == s[i - so]
      invariant forall k :: so <= k <= i ==> src[k] == s[k - so]
      invariant forall k :: i - so < k < n ==> dst[at + k] == ShiftedAt(s, bits, k)
      invariant forall k :: 0 <= k < dst.Length && !(at <= k < at + n) ==> dst[k] == old(dst[k])
    {
      i := i - 1;
      var val2 := src[i];
      dst[j] := ShiftLeftOr(val1, bits, ShiftRight(val2, 32 - bits));
      val1 := val2;
      j := j - 1;
    }
    dst[j] := ShiftLeftOr(val1, bits, 0);
    assert forall k :: 0 <= k < n ==> dst[at..at + n][k] == ShiftedLeft(s, bits)[k];
  }

  /** The loop from the bottom limb up, to a lower place of the same storage. */
  method ShiftUp(x: array<int32>, so: nat, n: nat, at: nat, bits: nat)
    requires 0 < n && so + n <= x.Length && at < so && bits <= 32
    modifies x
    ensures x[at..at + n] == ShiftedLeft(old(x[so..so + n]), bits)
    ensures forall i :: 0 <= i < at ==> x[i] == old(x[i])
  {
    hide ShiftLeftOr, ShiftRight;
    ghost var s := x[so..so + n];
    var i := so + n - 1;
    var val1, val2 := x[i], 0;
    ZeroShifted(32 - bits);
    var k, j := so, at;
    while k != i
      invariant so <= k <= i && j == at + (k - so)
      invariant val2 == if k == so then 0 else s[k - so - 1]
      invariant forall l :: k <= l <= i ==> x[l] == s[l - so]
      invariant forall l :: 0 <= l < k - so ==> x[at + l] == ShiftedAt(s, bits, l)
      invariant forall l :: 0 <= l < at ==> x[l] == old(x[l])
    {
      var val3 := x[k];
      x[j] := ShiftLeftOr(val3, bits, ShiftRight(val2, 32 - bits));
      val2 := val3;
      k := k + 1;
      j := j + 1;
    }
    x[j] := ShiftLeftOr(val1, bits, ShiftRight(val2, 32 - bits));
    assert forall l :: 0 <= l < n ==> x[at..at + n][l] == ShiftedLeft(s, bits)[l];
  }

  lemma ZeroShifted(n: nat)
    ensures ShiftRight(0, n) == 0
  {
    hide TwoTo;
    var q, r := ShiftRightParts(0, n);
    TimesMonotone(0, q, TwoTo(n));
  }

  method ZeroFill(x: array<int32>, lo: nat, hi: nat)
    requires lo <= hi <= x.Length
    modifies x
    ensures x[lo..hi] == Zeros(hi - lo)
    ensures forall i :: 0 <= i < x.Length && !(lo <= i < hi) ==> x[i] == old(x[i])
  {
    var j := hi;
    while j > lo
      invariant lo <= j <= hi && forall i :: j <= i < hi ==> x[i] == 0
      invariant forall i :: 0 <= i < x.Length && !(lo <= i < hi) ==> x[i] == old(x[i])
    {
      j := j - 1;
      x[j] := 0;
    }
  }

  function Zeros(k: nat): (r: seq<int32>)
    ensures |r| == k
  {
    seq(k, _ => 0)
  }

  lemma {:induction false} ValZeros(k: nat)
    ensures Val(Zeros(k)) == 0
  {
    if k > 0 {
      ValZeros(k - 1);
      assert Zeros(k)[..k - 1] == Zeros(k - 1);
      UnsignedZero();
    }
  }

  lemma {:induction false} TwoToWords(k: nat)
    ensures TwoTo(32 * k) == Pow(k)
  {
    hide TwoTo;
    TwoToSmall();
    if k > 0 {
      TwoToWords(k - 1);
      TwoToSum(32, 32 * (k - 1));
      TwoToBase(32);
    }
  }

  /** The whole shift: `words` zero limbs, the shifted limbs, and the head when there is one. */
  ghost function WholeShift(s: seq<int32>, words: nat, bits: nat): (r: seq<int32>)
    requires bits <= 32
  {
    Zeros(words) + ShiftedLeft(s, bits) + if HeadOf(s, bits) == 0 then [] else [HeadOf(s, bits)]
  }

  lemma WholeShiftIs(s: seq<int32>, words: nat, bits: nat)
    requires bits <= 32
    ensures Val(WholeShift(s, words, bits)) == Val(s) * TwoTo(32 * words + bits)
    ensures s != [] && Normal(s) ==> Normal(WholeShift(s, words, bits))
  {
    hide Val, Pow, TwoTo, Unsigned, ShiftedLeft, HeadOf, Zeros;
    var t, h := ShiftedLeft(s, bits), HeadOf(s, bits);
    var top := if h == 0 then [] else [h];
    ShiftedLeftIs(s, bits);
    UnsignedZero();
    ValEmpty();
    assert h == 0 ==> t + top == t;
    assert Val(t + top) == Val(s) * TwoTo(bits) by {
      if h != 0 {
        ValSnoc(t, h);
      }
    }
    ValZeros(words);
    assert WholeShift(s, words, bits) == Zeros(words) + (t + top);
    ValConcat(Zeros(words), t + top);
    TwoToSum(32 * words, bits);
    TwoToWords(words);
    Associate(Pow(words), Val(s), TwoTo(bits));
    if s != [] && Normal(s) && h == 0 {
      ValNormalized(s);
      TimesMonotone(1, TwoTo(bits), Val(s));
      ValNormalized(t);
    }
  }

  lemma ShiftedByWords(s: seq<int32>, words: nat)
    ensures WholeShift(s, words, 0) == Zeros(words) + s
  {
    forall x: int32 ensures ShiftRight(x, 32) == 0 && ShiftLeftOr(x, 0, 0) == x {
      NothingShifted(x);
    }
    assert ShiftedLeft(s, 0) == s;
  }

  lemma NothingShifted(x: int32)
    ensures ShiftRight(x, 32) == 0 && ShiftLeftOr(x, 0, 0) == x
  {
    hide TwoTo;
    TwoToBase(32);
    TwoToSmall();
  }

  /** Moves the limbs up by whole words, from the top limb down. */
  method MoveUp(dst: array<int32>, src: array<int32>, so: nat, n: nat, at: nat)
    requires so + n <= src.Length && at + n <= dst.Length && (dst == src ==> so <= at)
    modifies dst
    ensures dst[at..at + n] == old(src[so..so + n])
    ensures forall i :: 0 <= i < dst.Length && !(at <= i < at + n) ==> dst[i] == old(dst[i])
  {
    ghost var s := src[so..so + n];
    var i := n;
    while i > 0
      invariant 0 <= i <= n && forall k :: 0 <= k < i ==> src[so + k] == s[k]
      invariant forall k :: i <= k < n ==> dst[at + k] == s[k]
      invariant forall k :: 0 <= k < dst.Length && !(at <= k < at + n) ==> dst[k] == old(dst[k])
    {
      i := i - 1;
      dst[at + i] := src[so + i];
    }
  }

  lemma JoinedParts(r: array<int32>, ro: nat, words: nat, n: nat)
    requires ro + words + n <= r.Length
    ensures r[ro..ro + words + n] == r[ro..ro + words] + r[ro + words..ro + words + n]
  {
  }

  /** The shift by whole words to an earlier start. */
  method StartEarlier(x: array<int32>, xo: nat, n: nat, words: nat)
    requires words <= xo && xo + n <= x.Length
    modifies x
    ensures x[xo - words..xo - words + words + n] == Zeros(words) + old(x[xo..xo + n])
  {
    hide Zeros;
    ghost var s := x[xo..xo + n];
    ZeroFill(x, xo - words, xo);
    assert x[xo..xo + n] == s;
    JoinedParts(x, xo - words, words, n);
  }

  /** The shift by whole words inside the storage, to its front. */
  method MoveToFront(x: array<int32>, xo: nat, n: nat, words: nat)
    requires xo + n <= x.Length && words + n <= x.Length && xo <= words
    modifies x
    ensures x[0..0 + words + n] == Zeros(words) + old(x[xo..xo + n])
  {
    hide Zeros;
    MoveUp(x, x, xo, n, words);
    ghost var moved := x[words..words + n];
    ZeroFill(x, 0, words);
    assert x[words..words + n] == moved;
    JoinedParts(x, 0, words, n);
  }

  /** The shift by whole words to larger storage. */
  method MoveToLarger(x: array<int32>, xo: nat, n: nat, words: nat) returns (r: array<int32>)
    requires xo + n <= x.Length < words + n && 0 < x.Length
    ensures fresh(r) && words + n <= r.Length && r[0..0 + words + n] == Zeros(words) + x[xo..xo + n]
    ensures GoodCapacity(x.Length) ==> GoodCapacity(r.Length)
  {
    hide Zeros, GoodCapacity;
    r := NewZeros(x.Length, words + n);
    MoveUp(r, x, xo, n, words);
    ZerosAre(r[0..words]);
    JoinedParts(r, 0, words, n);
  }

  /** The shift by whole words: the number starts earlier, moves up, or moves to larger storage. */
  method ShiftWords(x: array<int32>, xo: nat, n: nat, words: nat) returns (r: array<int32>, ro: nat)
    requires 0 < n && xo + n <= x.Length
    modifies x
    ensures (r == x || fresh(r)) && ro <= xo && (xo < words ==> ro == 0) && ro + words + n <= r.Length
    ensures GoodCapacity(x.Length) ==> GoodCapacity(r.Length)
    ensures r[ro..ro + words + n] == Zeros(words) + old(x[xo..xo + n])
  {
    hide Zeros, GoodCapacity;
    r, ro := x, 0;
    if xo >= words {
      ro := xo - words;
      StartEarlier(x, xo, n, words);
    } else if x.Length >= words + n {
      MoveToFront(x, xo, n, words);
    } else {
      r := MoveToLarger(x, xo, n, words);
    }
  }

  lemma ZerosAre(s: seq<int32>)
    requires forall i :: 0 <= i < |s| ==> s[i] == 0
    ensures s == Zeros(|s|)
  {
  }

  /** The shift by words and bits inside the storage, to its front. */
  method ShiftToFront(x: array<int32>, xo: nat, n: nat, words: nat, bits: nat)
    requires 0 < n && xo + n <= x.Length && words + n <= x.Length && bits <= 32
    modifies x
    ensures x[0..0 + words + n] == Zeros(words) + ShiftedLeft(old(x[xo..xo + n]), bits)
  {
    hide Zeros, ShiftedLeft;
    ghost var s := x[xo..xo + n];
    if xo > words {
      ZeroFill(x, 0, words);
      assert x[xo..xo + n] == s;
      ShiftUp(x, xo, n, words, bits);
    } else {
      ShiftDown(x, x, xo, n, words, bits);
      ghost var t := x[words..words + n];
      ZeroFill(x, 0, words);
      assert x[words..words + n] == t;
    }
    JoinedParts(x, 0, words, n);
  }

  /** The shift by words and bits, to the front of storage with room for `len` limbs. */
  method ShiftBits(x: array<int32>, xo: nat, n: nat, words: nat, bits: nat, len: nat) returns (r: array<int32>)
    requires 0 < n && xo + n <= x.Length && words + n <= len && bits <= 32
    modifies x
    ensures (r == x || fresh(r)) && len <= r.Length
    ensures GoodCapacity(x.Length) ==> GoodCapacity(r.Length)
    ensures r[..words + n] == Zeros(words) + ShiftedLeft(old(x[xo..xo + n]), bits)
  {
    hide Zeros, ShiftedLeft, GoodCapacity;
    r := x;
    if x.Length < len {
      r := NewZeros(x.Length, len);
      ShiftDown(r, x, xo, n, words, bits);
      ZerosAre(r[0..words]);
      JoinedParts(r, 0, words, n);
    } else {
      ShiftToFront(x, xo, n, words, bits);
    }
    assert r[..words + n] == r[0..0 + words + n];
  }

  /** The shift by words and at least one bit: the bits that leave the top limb go to one more limb. */
  method ShiftWithHead(x: array<int32>, xo: nat, n: nat, words: nat, bits: nat) returns (r: array<int32>, len: nat)
    requires 0 < n && xo + n <= x.Length && 0 < bits < 32
    modifies x
    ensures (r == x || fresh(r)) && len <= r.Length && r[0..0 + len] == WholeShift(old(x[xo..xo + n]), words, bits)
    ensures GoodCapacity(x.Length) ==> GoodCapacity(r.Length)
  {
    hide TwoTo, Zeros, ShiftedLeft, ShiftRight, GoodCapacity;
    var head := ShiftRight(x[xo + n - 1], 32 - bits);
    len := if head == 0 then words + n else words + n + 1;
    r := ShiftBits(x, xo, n, words, bits, len);
    ghost var lower := r[..words + n];
    if head != 0 {
      r[words + n] := head;
      assert r[0..0 + len] == lower + [head];
    } else {
      assert r[0..0 + len] == lower + [];
    }
  }

  /** `shift_left` by any number of bits. */
  method ShiftLeft(x: array<int32>, xo: nat, n: nat, count: nat) returns (r: array<int32>, ro: nat, len: nat)
    requires xo + n <= x.Length && Normal(x[xo..xo + n]) && 0 < count
    modifies x
    ensures (r == x || fresh(r)) && ro <= xo && ro + len <= r.Length && Normal(r[ro..ro + len])
    ensures GoodCapacity(x.Length) ==> GoodCapacity(r.Length)
    ensures Val(r[ro..ro + len]) == old(Val(x[xo..xo + n])) * TwoTo(count)
  {
    hide Val, TwoTo, Zeros, ShiftedLeft, HeadOf, WholeShift, Normal, GoodCapacity;
    ghost var s := x[xo..xo + n];
    r, ro, len := x, xo, 0;
    if n == 0 {
      assert x[xo..xo] == [] == s;
      ValEmpty();
      return;
    }
    var words, bits := count / 32, count % 32;
    WholeShiftIs(s, words, bits);
    if bits == 0 {
      ShiftedByWords(s, words);
      r, ro := ShiftWords(x, xo, n, words);
      len := words + n;
    } else {
      r, len := ShiftWithHead(x, xo, n, words, bits);
      ro := 0;
    }
  }

  lemma LowBitsOfZero(n: nat)
    ensures LowBits(0, n) == 0
  {
    hide TwoTo, ShiftRight;
    var q, r := ShiftRightParts(0, n);
    TimesMonotone(0, q, TwoTo(n));
  }

  /** Shifting right joins the upper bits of one word with the lower bits of the next. */
  lemma RightColumn(b: int32, c: int32, n: nat)
    requires n <= 32
    ensures var p := TwoTo(n);
      Unsigned(RightJoin(b, c, n)) * p + LowBits(b, n) == Unsigned(b) + BASE * LowBits(c, n)
  {
    hide TwoTo, Unsigned, ShiftRight, RightJoin, LowBits;
    var q, r := ShiftRightParts(b, n);
    var t, s := ShiftRightParts(c, n);
    RightJoinIs(b, c, n, q);
    UnsignedIsSmall(b);
    TwoToBase(n);
    RightSplit(Unsigned(b), TwoTo(n), TwoTo(32 - n), q, r, s);
  }

  lemma RightJoinIs(b: int32, c: int32, n: nat, q: nat)
    requires n <= 32 && q == Unsigned(b) / TwoTo(n)
    ensures Unsigned(RightJoin(b, c, n)) == (q + LowBits(c, n) * TwoTo(32 - n)) % BASE
  {
    hide LowBits, TwoTo;
    UnsignedWrap(q + LowBits(c, n) * TwoTo(32 - n));
  }

  lemma RightSplit(u: nat, p: nat, g: nat, q: nat, r: nat, s: nat)
    requires p * g == BASE && u == q * p + r && r < p && s < p && u < BASE
    ensures (q + s * g) % BASE == q + s * g
    ensures (q + s * g) * p + r == u + BASE * s
  {
    if g <= q {
      TimesMonotone(g, q, p);
    }
    TimesMonotone(s + 1, p, g);
    assert s * g * p == BASE * s;
  }

  /** `b |>>> n | (c |<< (32 - n))`. */
  function RightJoin(b: int32, c: int32, n: nat): int32
    requires n <= 32
  {
    Wrap(Unsigned(b) / TwoTo(n) + LowBits(c, n) * TwoTo(32 - n))
  }

  /** One limb of a right shift; `s` and `t` are the low bits still to be delivered. */
  lemma RightStep(r: int, x: int, pj: int, p: int, limb: int, s: int, first: int, xj: int, t: int)
    requires p * r + first == x + pj * s
    requires limb * p + s == xj + BASE * t
    ensures p * (r + limb * pj) + first == (x + xj * pj) + (BASE * pj) * t
  {
  }

  /** Shifts the `n` limbs from `ro` on right, to the front of their storage; the bits that leave are lost. */
  method ShiftRightInto(r: array<int32>, ro: nat, n: nat, bits: nat)
    requires 0 < n && ro + n <= r.Length && bits <= 32
    modifies r
    ensures old(Val(r[ro..ro + n])) == TwoTo(bits) * Val(r[..n]) + old(LowBits(r[ro], bits))
    ensures forall i :: n <= i < r.Length ==> r[i] == old(r[i])
  {
    hide Val, Pow, Unsigned, TwoTo, RightJoin, LowBits;
    ghost var x, p, first := r[ro..ro + n], TwoTo(bits), LowBits(r[ro], bits);
    var i := 0;
    var c := r[ro];
    ValEmpty();
    assert r[..0] == x[..0] == [];
    while i < n
      invariant 0 <= i <= n && (i < n ==> c == x[i])
      invariant p * Val(r[..i]) + first == Val(x[..i]) + Pow(i) * (if i < n then LowBits(x[i], bits) else 0)
      invariant forall k :: i <= k < n ==> r[ro + k] == x[k]
      invariant forall k :: n <= k < r.Length ==> r[k] == old(r[k])
    {
      var b := c;
      c := if i + 1 < n then r[ro + i + 1] else 0;
      LowBitsOfZero(bits);
      RightColumn(b, c, bits);
      RightStep(Val(r[..i]), Val(x[..i]), Pow(i), p, Unsigned(RightJoin(b, c, bits)), LowBits(b, bits), first,
                Unsigned(b), LowBits(c, bits));
      PowNext(i);
      ValPrefix(x, i);
      ValSnoc(r[..i], RightJoin(b, c, bits));
      ghost var done := r[..i];
      r[i] := RightJoin(b, c, bits);
      assert r[..i + 1] == done + [r[i]];
      i := i + 1;
    }
    assert x[..n] == x;
  }

  lemma LowBitsBelow(x: int32, n: nat)
    ensures LowBits(x, n) < TwoTo(n)
  {
  }

  /** Shifting right by less than a word costs at most one limb. */
  lemma ShiftedBack(s: seq<int32>, t: seq<int32>, bits: nat, low: nat)
    requires s != [] && |t| == |s| && Normal(s) && bits <= 31
    requires Val(s) == TwoTo(bits) * Val(t) + low && low < TwoTo(bits)
    ensures t[|t| - 1] == 0 ==> Val(t) == Val(t[..|t| - 1]) && Normal(t[..|t| - 1])
  {
    hide Val, Pow, TwoTo, Unsigned;
    var n := |s| - 1;
    ValNormalized(s);
    if t[n] == 0 {
      ZeroOnTop(t);
      if n > 0 {
        PowNext(n - 1);
        TwoToBase(bits);
        ValNormalized(t[..n]);
        ShiftedBelow(TwoTo(bits), TwoTo(32 - bits), Val(t), Pow(n - 1), low);
      }
    }
  }

  lemma ShiftedBelow(p: nat, g: nat, t: nat, place: nat, low: nat)
    requires p * g == BASE && 0 < g && BASE * place <= p * t + low && low < p
    ensures place <= t
  {
    TimesMonotone(1, g, p);
    TimesMonotone(p, BASE, place);
    TimesMonotone(if t < place then t + 1 else 0, place, p);
  }

  lemma QuotientIs(x: nat, p: nat, t: nat, low: nat)
    requires x == p * t + low && low < p
    ensures x / p == t
  {
    DividedBy(x, p);
    SameDigits(low, x % p, t, x / p, p);
  }

  /** `primitive_shift_right`: division by the power of two, with the zero limb that it leaves at the top dropped. */
  method PrimitiveShiftRight(r: array<int32>, ro: nat, n: nat, bits: nat) returns (len: nat)
    requires 0 < n && ro + n <= r.Length && bits <= 31 && Normal(r[ro..ro + n])
    modifies r
    ensures len <= n && Normal(r[..len]) && Val(r[..len]) == old(Val(r[ro..ro + n])) / TwoTo(bits)
    ensures forall i :: n <= i < r.Length ==> r[i] == old(r[i])
  {
    hide Val, Pow, TwoTo, LowBits;
    ghost var s, low := r[ro..ro + n], LowBits(r[ro], bits);
    LowBitsBelow(r[ro], bits);
    ShiftRightInto(r, ro, n, bits);
    ghost var t := r[..n];
    ShiftedBack(s, t, bits, low);
    QuotientIs(Val(s), TwoTo(bits), Val(t), low);
    len := n;
    if r[n - 1] == 0 {
      len := n - 1;
      assert t[..len] == r[..len];
    }
  }

  /** What the class demands of a number: no leading zero limb, its limbs in its storage, and no negative zero. */
  ghost predicate KeepsInvariant(storage: seq<int32>, o: int, len: int, negative: bool) {
    && 0 <= len && (len == 0 ==> !negative)
    && (len != 0 ==> 0 <= o && o + len <= |storage| && Normal(storage[o..o + len]))
  }

  /**
   When a right shift leaves a number that the class accepts: when it has more limbs than words leave and does not
   become a negative zero, or when exactly its words leave and it is not negative.
   */
  ghost predicate ShiftsRightly(n: nat, magnitude: nat, negative: bool, count: nat) {
    n == 0 ||
    (count / 32 < n && !(negative && magnitude < TwoTo(count))) ||
    (count / 32 == n && count % 32 == 0 && !negative)
  }

  /** Dropping words and then bits divides by the power of two. */
  lemma DroppedWords(s: seq<int32>, words: nat, bits: nat)
    requires words <= |s|
    ensures Val(s[words..]) / TwoTo(bits) == Val(s) / TwoTo(32 * words + bits)
  {
    hide Val, Pow, TwoTo;
    assert s == s[..words] + s[words..];
    ValConcat(s[..words], s[words..]);
    ValBound(s[..words]);
    TwoToSum(32 * words, bits);
    TwoToWords(words);
    var p, q, high := Pow(words), TwoTo(bits), Val(s[words..]);
    DividedBy(high, q);
    TwoPlaces(Val(s[..words]), p, q, high / q, high % q);
    QuotientIs(Val(s), p * q, high / q, p * (high % q) + Val(s[..words]));
  }

  lemma TwoPlaces(low: nat, p: nat, q: nat, t: nat, rest: nat)
    requires low < p && rest < q
    ensures low + p * (t * q + rest) == p * q * t + (p * rest + low) && 0 <= p * rest + low < p * q
  {
    TimesMonotone(rest + 1, q, p);
  }

  /**
   `shift_right` by any number of bits. Whole words leave by moving the start; the length is not checked. A remaining
   shift by bits needs at least one limb, which `fits` reports.
   */
  method ShiftRightBy(x: array<int32>, xo: nat, n: nat, negative: bool, count: nat)
    returns (ro: int, len: int, fits: bool)
    requires xo + n <= x.Length && Normal(x[xo..xo + n]) && 0 < count && (n == 0 ==> !negative)
    modifies x
    ensures fits <==> n == 0 || count / 32 < n || count % 32 == 0
    ensures fits && 0 <= len ==>
      0 <= ro && ro + len <= x.Length && Val(x[ro..ro + len]) == old(Val(x[xo..xo + n])) / TwoTo(count)
    ensures fits && KeepsInvariant(x[..], ro, len, negative)
      <==> ShiftsRightly(n, old(Val(x[xo..xo + n])), negative, count)
  {
    hide Val, TwoTo, Normal;
    ghost var s, p := x[xo..xo + n], TwoTo(count);
    ro, len, fits := xo, n, true;
    var words, bits := count / 32, count % 32;
    QuotientZero(Val(s), p);
    ZeroIsEmpty(s);
    TwoToSmall();
    if n > 0 {
      len := n - words;
      ro := xo + words;
      if words <= n {
        DroppedWords(s, words, bits);
        assert s[words..] == x[ro..ro + len];
      }
      if words < n {
        NormalTail(s, words);
        ZeroIsEmpty(s[words..]);
      }
      if bits != 0 {
        fits := 0 < len;
        if fits {
          len := PrimitiveShiftRight(x, ro, len, bits);
          ro := 0;
          ZeroIsEmpty(x[..len]);
          assert x[0..0 + len] == x[..len];
        }
      }
    }
    if 0 <= len && 0 <= ro && ro + len <= x.Length {
      assert x[..][ro..ro + len] == x[ro..ro + len];
    }
  }

  /** Minus one shifted by a bit is left a negative zero, and one shifted by two words with a negative length. */
  lemma RightShiftFails()
    ensures Normal([1]) && Val([1]) == 1
    ensures !ShiftsRightly(1, Val([1]), true, 1) && !ShiftsRightly(1, Val([1]), false, 64)
  {
    OneLimb(1);
    UnsignedOne();
    TwoToSmall();
  }

  lemma QuotientZero(x: nat, p: nat)
    requires 0 < p
    ensures x / p == 0 <==> x < p
  {
    DividedBy(x, p);
    TimesMonotone(if x / p == 0 then 0 else 1, x / p, p);
  }

  lemma NormalTail(s: seq<int32>, words: nat)
    requires Normal(s) && words < |s|
    ensures Normal(s[words..])
  {
  }

  /** How far the top limb must move until its top bit is set. */
  method NormalizingShift(top: int32) returns (bits: nat)
    requires top != 0
    ensures bits <= 31 && BASE <= 2 * (Unsigned(top) * TwoTo(bits)) && Unsigned(top) * TwoTo(bits) < BASE
  {
    hide Unsigned, TwoTo, ShiftLeftOr;
    var head := top;
    bits := 0;
    TopBit(top);
    TwoToSmall();
    while head >= 0
      invariant head != 0 && Unsigned(head) == Unsigned(top) * TwoTo(bits)
      invariant bits <= 31
      decreases BASE - Unsigned(head)
    {
      DoubledWord(head);
      TopDoubled(Unsigned(top), bits);
      TwoToGrows(bits, Unsigned(top));
      head := ShiftLeftOr(head, 1, 0);
      bits := bits + 1;
      TopBit(head);
    }
    TopBit(head);
  }

  lemma DoubledWord(x: int32)
    requires 0 <= x
    ensures Unsigned(ShiftLeftOr(x, 1, 0)) == 2 * Unsigned(x) < BASE
  {
  }

  lemma TopDoubled(top: nat, bits: nat)
    ensures top * TwoTo(bits + 1) == 2 * (top * TwoTo(bits))
  {
  }

  lemma TopBit(x: int32)
    ensures x < 0 <==> BASE <= 2 * Unsigned(x)
    ensures Unsigned(x) < BASE && (x == 0 <==> Unsigned(x) == 0)
  {
  }

  lemma TwoToGrows(bits: nat, top: nat)
    requires 0 < top && bits <= 31 && 2 * (top * TwoTo(bits)) < BASE
    ensures bits < 31
  {
    hide TwoTo;
    if bits == 31 {
      TwoToBase(31);
      TwoToSmall();
      TimesMonotone(1, top, TwoTo(31));
    }
  }
}
