/**
 Division of one limb string by another: the quotient of the leading words is estimated, corrected with the
 second word of the divisor, multiplied back and, when it was one too large, taken back once.
 */
module LongDivision {
  import opened Int32
  import opened Limbs
  import opened Magnitudes

  /** The leading words of a window of the dividend, and what is below them. */
  datatype Window = Window(u1: nat, u2: nat, u3: nat, rest: nat)

  /** The two leading words of the divisor, and what is below them; `place` is the weight of the second word. */
  datatype Divisor = Divisor(v1: nat, v2: nat, rest: nat, place: nat)

  function WindowValue(w: Window, place: nat): nat {
    ((w.u1 * BASE + w.u2) * BASE + w.u3) * place + w.rest
  }

  function DivisorValue(v: Divisor): nat {
    (v.v1 * BASE + v.v2) * v.place + v.rest
  }

  /** All words are words, and the divisor is shifted so that its top bit is set. */
  ghost predicate Shaped(w: Window, v: Divisor) {
    && w.u1 < BASE && w.u2 < BASE && w.u3 < BASE && w.rest < v.place
    && BASE <= 2 * v.v1 && v.v1 < BASE && v.v2 < BASE && v.rest < v.place
  }

  /** `q` is the quotient of the window by the divisor, or one more. */
  ghost predicate AtMostOneTooLarge(q: int, w: Window, v: Divisor) {
    (q - 1) * DivisorValue(v) <= WindowValue(w, v.place) < (q + 1) * DivisorValue(v)
  }

  /** The trial quotient of the leading words is never too small. */
  lemma TrialIsEnough(q: nat, r: nat, w: Window, v: Divisor)
    requires Shaped(w, v) && q * v.v1 + r == w.u1 * BASE + w.u2 && r < v.v1
    ensures WindowValue(w, v.place) < (q + 1) * DivisorValue(v)
  {
    DivisorBounds(w, v);
    hide DivisorValue, WindowValue;
    NextMultiple(q, v.v1, r);
    OneAbove(q, v.v1, w.u1 * BASE + w.u2, BASE * v.place, DivisorValue(v), WindowValue(w, v.place));
  }

  lemma NextMultiple(q: nat, d: nat, r: nat)
    requires r < d
    ensures q * d + r < (q + 1) * d
  {
  }

  lemma OneAbove(q: nat, v1: nat, top: nat, big: nat, d: nat, window: nat)
    requires top < (q + 1) * v1 && v1 * big <= d && window < (top + 1) * big
    ensures window < (q + 1) * d
  {
    TimesMonotone(top + 1, (q + 1) * v1, big);
    TimesMonotone(v1 * big, d, q + 1);
    Reorder(q + 1, v1, big);
  }

  lemma Reorder(a: nat, b: nat, c: nat)
    ensures a * b * c == b * c * a
  {
  }

  /** When the second word of the divisor shows the trial to be too large, it is. */
  lemma TrialIsTooLarge(q: nat, r: nat, w: Window, v: Divisor)
    requires Shaped(w, v) && q * v.v1 + r == w.u1 * BASE + w.u2
    requires v.v2 * q > r * BASE + w.u3
    ensures WindowValue(w, v.place) < q * DivisorValue(v)
  {
    var top := (w.u1 * BASE + w.u2) * BASE + w.u3;
    var s := v.v1 * BASE + v.v2;
    assert q * s == (q * v.v1) * BASE + v.v2 * q;
    TopDecides(q, s, top, v.place, w.rest, v.rest);
  }

  lemma TopDecides(q: nat, s: nat, top: nat, place: nat, low: nat, rest: nat)
    requires top < q * s && low < place
    ensures top * place + low < q * (s * place + rest)
  {
    TimesMonotone(top + 1, q * s, place);
    assert q * (s * place + rest) == q * s * place + q * rest;
    TimesMonotone(0, q, rest);
  }

  /** When the second word of the divisor shows nothing, the trial is at most one too large. */
  lemma TrialIsClose(q: nat, r: nat, w: Window, v: Divisor)
    requires Shaped(w, v) && q * v.v1 + r == w.u1 * BASE + w.u2 && q <= BASE
    requires v.v2 * q <= r * BASE + w.u3
    ensures (q - 1) * DivisorValue(v) <= WindowValue(w, v.place)
  {
    LeadingWords(q, v.v1, v.v2, r, w.u3);
    CloseBound(q, v.v1 * BASE + v.v2, (w.u1 * BASE + w.u2) * BASE + w.u3, v.place, v.rest, w.rest);
  }

  lemma LeadingWords(q: nat, v1: nat, v2: nat, r: nat, u3: nat)
    requires v2 * q <= r * BASE + u3
    ensures q * (v1 * BASE + v2) <= (q * v1 + r) * BASE + u3
  {
    Distribute(q, v1 * BASE, v2);
  }

  lemma CloseBound(q: nat, s: nat, top: nat, place: nat, rest: nat, low: nat)
    requires q * s <= top && q <= BASE <= s && rest < place
    ensures (q - 1) * (s * place + rest) <= top * place + low
  {
    var d := s * place + rest;
    OneLess(q, d);
    Distribute(q, s * place, rest);
    Reorder(q, s, place);
    TimesMonotone(q * s, top, place);
    TimesMonotone(q, BASE, rest);
    TimesMonotone(BASE, s, place);
  }

  /** The divisor and the window lie between their leading words and the next, in places of the leading words. */
  lemma DivisorBounds(w: Window, v: Divisor)
    requires Shaped(w, v)
    ensures v.v1 * (BASE * v.place) <= DivisorValue(v) < (v.v1 + 1) * (BASE * v.place)
    ensures var top := w.u1 * BASE + w.u2;
      top * (BASE * v.place) <= WindowValue(w, v.place) < (top + 1) * (BASE * v.place)
  {
    PlaceBounds(v.v1, v.v2, v.place, v.rest);
    PlaceBounds(w.u1 * BASE + w.u2, w.u3, v.place, w.rest);
  }

  lemma PlaceBounds(top: nat, word: nat, place: nat, rest: nat)
    requires word < BASE && rest < place
    ensures top * (BASE * place) <= (top * BASE + word) * place + rest < (top + 1) * (BASE * place)
  {
    TimesMonotone(word + 1, BASE, place);
    assert (top * BASE + word) * place == top * (BASE * place) + word * place;
    Distribute(BASE * place, top, 1);
  }

  lemma NearBounds(q: nat, v1: nat, top: nat, d: nat, big: nat)
    requires q * v1 <= top && q <= 2 * v1
    requires v1 * big <= d < (v1 + 1) * big
    ensures (q - 2) * d <= top * big
  {
  }

  /** The trial is never more than two too large, because the top bit of the divisor is set. */
  lemma TrialIsNear(q: nat, w: Window, v: Divisor)
    requires Shaped(w, v) && q * v.v1 <= w.u1 * BASE + w.u2 && q < BASE
    ensures (q - 2) * DivisorValue(v) <= WindowValue(w, v.place)
  {
    DivisorBounds(w, v);
    hide DivisorValue, WindowValue;
    NearBounds(q, v.v1, w.u1 * BASE + w.u2, DivisorValue(v), BASE * v.place);
  }

  lemma LargestBounds(v1: nat, d: nat, big: nat)
    requires BASE <= 2 * v1 && v1 * big <= d < (v1 + 1) * big
    ensures (BASE - 2) * d <= (v1 * BASE) * big
  {
  }

  /** The largest word, taken when the leading words are equal, is at most one too large. */
  lemma LargestWordIsClose(w: Window, v: Divisor)
    requires Shaped(w, v) && w.u1 == v.v1
    ensures (BASE - 2) * DivisorValue(v) <= WindowValue(w, v.place)
  {
    DivisorBounds(w, v);
    hide DivisorValue, WindowValue;
    LargestBounds(v.v1, DivisorValue(v), BASE * v.place);
    TimesMonotone(v.v1 * BASE, v.v1 * BASE + w.u2, BASE * v.place);
  }

  /** The unsigned comparison of two words. */
  predicate UnsignedGreaterThan(a: int32, b: int32) {
    Unsigned(a) > Unsigned(b)
  }

  lemma UnsignedDecrement(x: int32)
    requires 0 < Unsigned(x)
    ensures Unsigned(Wrap(x - 1)) == Unsigned(x) - 1
  {
  }

  lemma OneLess(q: int, d: nat)
    ensures (q + 1) * d == q * d + d && (q - 1) * d == q * d - d
    ensures (q - 2) * d == q * d - 2 * d && (q - 3) * d == q * d - 3 * d
  {
  }

  /** The test of a trial quotient `q` with remainder `r` against the second divisor word. */
  predicate TooLarge(q: nat, r: nat, w: Window, v: Divisor) {
    v.v2 * q > r * BASE + w.u3
  }

  /** A trial that fails the test is lowered, once or twice, until it passes; either way it ends close. */
  lemma TrialCorrected(q: nat, r: nat, w: Window, v: Divisor)
    requires Shaped(w, v) && q * v.v1 + r == w.u1 * BASE + w.u2 && r < v.v1 && q < BASE
    ensures !TooLarge(q, r, w, v) ==> AtMostOneTooLarge(q, w, v)
    ensures TooLarge(q, r, w, v) ==> 0 < q && AtMostOneTooLarge(q - 1, w, v)
    ensures TooLarge(q, r, w, v) && TooLarge(q - 1, r + v.v1, w, v) ==> 1 < q && AtMostOneTooLarge(q - 2, w, v)
  {
    hide Shaped, DivisorValue, WindowValue;
    var d := DivisorValue(v);
    OneLess(q, d);
    OneLess(q - 1, d);
    TrialIsEnough(q, r, w, v);
    if TooLarge(q, r, w, v) {
      TrialIsNear(q, w, v);
      TrialIsTooLarge(q, r, w, v);
      if TooLarge(q - 1, r + v.v1, w, v) {
        TrialIsTooLarge(q - 1, r + v.v1, w, v);
      }
    } else {
      TrialIsClose(q, r, w, v);
    }
  }

  /**
   Estimates one word of the quotient. After the first correction the test is repeated only while the
   trial remainder still fits a word, and never a third time.
   */
  method EstimateQuotient(u1: int32, u2: int32, u3: int32, v1: int32, v2: int32, ghost w: Window, ghost v: Divisor)
    returns (qhat: int32)
    requires w.u1 == Unsigned(u1) && w.u2 == Unsigned(u2) && w.u3 == Unsigned(u3)
    requires v.v1 == Unsigned(v1) && v.v2 == Unsigned(v2)
    requires Shaped(w, v) && WindowValue(w, v.place) < BASE * DivisorValue(v) && w.u1 <= v.v1
    ensures AtMostOneTooLarge(Unsigned(qhat), w, v)
  {
    if u1 == v1 {
      qhat := -1;
      LargestWordIsClose(w, v);
    } else {
      UnsignedInjective2(u1, v1);
      var c := MbiDivide(u1, u2, v1);
      qhat := c.quotient;
      var rhat := c.remainder;
      TrialCorrected(Unsigned(qhat), Unsigned(rhat), w, v);
      qhat := CorrectQuotient(qhat, rhat, u3, v1, v2, w, v);
    }
  }

  lemma UnsignedInjective2(x: int32, y: int32)
    ensures Unsigned(x) == Unsigned(y) <==> x == y
  {
  }

  /** Tests a two-word product against the remainder word and the third word. */
  predicate PairGreater(high: int32, low: int32, rhat: int32, u3: int32) {
    UnsignedGreaterThan(high, rhat) || (high == rhat && UnsignedGreaterThan(low, u3))
  }

  lemma PairGreaterMeans(high: int32, low: int32, rhat: int32, u3: int32)
    ensures PairGreater(high, low, rhat, u3) <==>
      Unsigned(high) * BASE + Unsigned(low) > Unsigned(rhat) * BASE + Unsigned(u3)
  {
  }

  /** When only the low words told the trial too large, or its remainder fits no word, one correction is enough. */
  lemma OneCorrectionIsEnough(q: nat, r: nat, v1: nat, v2: nat, u3: nat)
    requires 0 < q < BASE && v2 < BASE && 0 < v1
    requires v2 * q < (r + 1) * BASE || BASE <= r + v1
    ensures v2 * (q - 1) <= (r + v1) * BASE + u3
  {
    assert v2 * (q - 1) == v2 * q - v2;
    if BASE <= r + v1 {
      TimesMonotone(v2, BASE, q - 1);
    }
  }

  lemma UnsignedGreater(a: int32, b: int32)
    requires UnsignedGreaterThan(a, b)
    ensures Unsigned(a) > Unsigned(b)
  {
  }

  /** A product that reaches the high word has no factor below two. */
  lemma HighWordNeedsTwo(high: nat, low: nat, v: nat, q: nat)
    requires 0 < high && v < BASE && high * BASE + low == v * q
    ensures 1 < q
  {
  }

  /** The correction after the first one: the product has lost one divisor word, the remainder gained one. */
  method CorrectAgain(trial: int32, highBefore: int32, lowBefore: int32, rhatBefore: int32, u3: int32,
          v1: int32, v2: int32)
    returns (qhat: int32)
    requires 1 < Unsigned(trial) && 0 < Unsigned(v1)
    requires Unsigned(highBefore) * BASE + Unsigned(lowBefore) == Unsigned(v2) * Unsigned(trial)
    ensures Unsigned(qhat) ==
      if Unsigned(v2) * (Unsigned(trial) - 1) > (Unsigned(rhatBefore) + Unsigned(v1)) * BASE + Unsigned(u3)
      then Unsigned(trial) - 2 else Unsigned(trial) - 1
  {
    hide Unsigned, MbiSubtract, MbiAdd, Wrap, UnsignedGreaterThan;
    UnsignedDecrement(trial);
    qhat := Wrap(trial - 1);
    UnsignedDecrement(qhat);
    var high := highBefore;
    var s := MbiSubtract(lowBefore, v2);
    assert Unsigned(v2) * (Unsigned(trial) - 1) == Unsigned(v2) * Unsigned(trial) - Unsigned(v2);
    if s.carry {
      TimesMonotone(2, Unsigned(trial), Unsigned(v2));
      UnsignedDecrement(high);
      high := Wrap(high as int - 1);
    }
    assert Unsigned(high) * BASE + Unsigned(s.limb) == Unsigned(v2) * (Unsigned(trial) - 1);
    var t := MbiAdd(rhatBefore, v1);
    PairGreaterMeans(high, s.limb, t.limb, u3);
    if t.carry {
      OneCorrectionIsEnough(Unsigned(trial), Unsigned(rhatBefore), Unsigned(v1), Unsigned(v2), Unsigned(u3));
    } else if UnsignedGreaterThan(high, t.limb) {
      qhat := Wrap(qhat - 1);
    } else if high == t.limb && UnsignedGreaterThan(s.limb, u3) {
      qhat := Wrap(qhat - 1);
    }
  }

  /** The correction of a trial quotient. */
  method CorrectQuotient(trial: int32, trialRemainder: int32, u3: int32, v1: int32, v2: int32, ghost w: Window,
          ghost v: Divisor)
    returns (qhat: int32)
    requires w.u3 == Unsigned(u3) && v.v1 == Unsigned(v1) && v.v2 == Unsigned(v2) && 0 < v.v1
    requires TooLarge(Unsigned(trial), Unsigned(trialRemainder), w, v) ==> 0 < Unsigned(trial)
    ensures var q, r := Unsigned(trial), Unsigned(trialRemainder);
      Unsigned(qhat) ==
        if !TooLarge(q, r, w, v) then q
        else if TooLarge(q - 1, r + v.v1, w, v) then q - 2 else q - 1
  {
    hide Unsigned, MbiMultiply, Wrap, UnsignedGreaterThan;
    UnsignedInjective2(trial, 0);
    UnsignedZero();
    qhat := trial;
    if qhat != 0 {
      var x := MbiMultiply(v2, qhat);
      PairGreaterMeans(x.high, x.low, trialRemainder, u3);
      if UnsignedGreaterThan(x.high, trialRemainder) {
        UnsignedGreater(x.high, trialRemainder);
        HighWordNeedsTwo(Unsigned(x.high), Unsigned(x.low), v.v2, Unsigned(trial));
        qhat := CorrectAgain(trial, x.high, x.low, trialRemainder, u3, v1, v2);
      } else if x.high == trialRemainder && UnsignedGreaterThan(x.low, u3) {
        OneCorrectionIsEnough(Unsigned(trial), Unsigned(trialRemainder), v.v1, v.v2, w.u3);
        UnsignedDecrement(trial);
        qhat := Wrap(qhat - 1);
      }
    }
  }

  /** One column of the multiplication that is subtracted at the same time. */
  lemma MultiplySubtractColumn(r: int, z: int, y: int, q: int, p: int, m1: int, dec: int,
                               limb: int, borrow: int, high: int, low: int, zk: int, yk: int)
    requires r - p * dec == z - y * q + p * m1
    requires high * BASE + low == q * yk + m1
    requires limb - BASE * borrow == zk - low - dec
    ensures (r + limb * p) - (BASE * p) * borrow == (z + zk * p) - (y + yk * p) * q + (BASE * p) * high
  {
  }

  /** Subtracts `qhat` times the divisor limbs; the word and the borrow still owed by the next place are returned. */
  method MultiplySubtractInto(r: array<int32>, ro: nat, d: array<int32>, dof: nat, n: nat, qhat: int32)
    returns (m1: int32, dec: bool)
    requires ro + n <= r.Length && dof + n <= d.Length && r != d
    modifies r
    ensures Val(r[ro..ro + n]) - Pow(n) * Bit(dec) ==
      old(Val(r[ro..ro + n])) - Val(d[dof..dof + n]) * Unsigned(qhat) + Pow(n) * Unsigned(m1)
    ensures forall i :: 0 <= i < r.Length && !(ro <= i < ro + n) ==> r[i] == old(r[i])
  {
    hide Val, Pow, Unsigned, MbiSubtract, MbiSubtractWithDec, MbiMultiplyWithAdd;
    ghost var y, z := d[dof..dof + n], r[ro..ro + n];
    m1, dec := 0, false;
    UnsignedZero();
    var k := 0;
    ValEmpty();
    assert r[ro..ro] == y[..0] == z[..0] == [];
    while k < n
      invariant 0 <= k <= n
      invariant Val(r[ro..ro + k]) - Pow(k) * Bit(dec) ==
        Val(z[..k]) - Val(y[..k]) * Unsigned(qhat) + Pow(k) * Unsigned(m1)
      invariant forall i :: k <= i < n ==> r[ro + i] == z[i]
      invariant forall i :: 0 <= i < r.Length && !(ro <= i < ro + k) ==> r[i] == old(r[i])
    {
      var m := MbiMultiplyWithAdd(qhat, d[dof + k], m1);
      var c := if dec then MbiSubtractWithDec(r[ro + k], m.low) else MbiSubtract(r[ro + k], m.low);
      MultiplySubtractColumn(Val(r[ro..ro + k]), Val(z[..k]), Val(y[..k]), Unsigned(qhat), Pow(k), Unsigned(m1),
                             Bit(dec), Unsigned(c.limb), Bit(c.carry), Unsigned(m.high), Unsigned(m.low),
                             Unsigned(z[k]), Unsigned(y[k]));
      PowNext(k);
      ValPrefix(y, k);
      ValPrefix(z, k);
      ValSnoc(r[ro..ro + k], c.limb);
      ghost var done := r[ro..ro + k];
      r[ro + k] := c.limb;
      assert r[ro..ro + k + 1] == done + [c.limb];
      m1, dec := m.high, c.carry;
      k := k + 1;
    }
    assert y[..n] == y && z[..n] == z;
  }

  /** A difference that stays within one place above or below zero has a top word of 0 or of -1. */
  lemma TopOfDifference(low: nat, p: nat, top: int, d: int)
    requires low < p && d == low + p * top && 0 <= d + p && d < p
    ensures top == (if d < 0 then -1 else 0) && low == if d < 0 then d + p else d
  {
  }

  /** The subtraction over the window; a quotient word of 1 needs no multiplication. */
  method SubtractProduct(u1: int32, qhat: int32, d: array<int32>, dof: nat, r: array<int32>, ro: nat, n: nat,
          ghost difference: int)
    returns (m1: int32, dec: bool)
    requires ro + n <= r.Length && dof + n <= d.Length && r != d
    requires difference == Val(r[ro..ro + n]) + Pow(n) * Unsigned(u1) - Val(d[dof..dof + n]) * Unsigned(qhat)
    modifies r
    ensures difference == Val(r[ro..ro + n]) + Pow(n) * (Unsigned(u1) - Unsigned(m1) - Bit(dec))
    ensures qhat == 1 ==> m1 == 0
    ensures forall i :: 0 <= i < r.Length && !(ro <= i < ro + n) ==> r[i] == old(r[i])
  {
    hide Val, Pow, Unsigned;
    UnsignedOne();
    UnsignedZero();
    if qhat == 1 {
      dec := SubtractInto(r, ro, r, ro, d, dof, n);
      m1 := 0;
    } else {
      m1, dec := MultiplySubtractInto(r, ro, d, dof, n, qhat);
    }
    DistributeTop(Pow(n), Unsigned(u1), Unsigned(m1), Bit(dec));
  }

  /**
   Multiplies and subtracts with the word `u1` above the window. A `u1` of zero stands for a limb that need
   not exist; then nothing is written there. The result tells whether the difference is negative.
   */
  method MultiplyAndSubtract(u1: int32, qhat: int32, d: array<int32>, dof: nat, r: array<int32>, ro: nat,
          n: nat, ghost difference: int)
    returns (negative: bool)
    requires ro + n <= r.Length && dof + n <= d.Length && r != d && qhat != 0
    requires u1 != 0 ==> ro + n < r.Length && r[ro + n] == u1
    requires difference == Val(r[ro..ro + n]) + Pow(n) * Unsigned(u1) - Val(d[dof..dof + n]) * Unsigned(qhat)
    requires 0 <= difference + Pow(n) && difference < Pow(n)
    modifies r
    ensures negative <==> difference < 0
    ensures Val(r[ro..ro + n]) == if negative then difference + Pow(n) else difference
    ensures u1 != 0 ==> r[ro + n] == if negative then -1 else 0
    ensures forall i :: 0 <= i < r.Length && !(ro <= i < ro + n) && (u1 != 0 ==> i != ro + n) ==> r[i] == old(r[i])
  {
    hide Val, Pow, Unsigned;
    var m1, dec := SubtractProduct(u1, qhat, d, dof, r, ro, n, difference);
    ghost var done := r[ro..ro + n];
    ValBound(done);
    TopOfDifference(Val(done), Pow(n), Unsigned(u1) - Unsigned(m1) - Bit(dec), difference);
    negative := SettleTop(u1, m1, dec, r, ro + n, qhat == 1);
    assert r[ro..ro + n] == done;
  }

  lemma DistributeTop(p: int, a: int, b: int, c: int)
    ensures p * (a - b - c) == p * a - p * b - p * c
  {
  }

  /** What the word above the window becomes: it pays the product's last word and the borrow. */
  method SettleTop(u1: int32, m1: int32, dec: bool, r: array<int32>, j: nat, single: bool) returns (negative: bool)
    requires -1 <= Unsigned(u1) - Unsigned(m1) - Bit(dec) <= 0
    requires u1 != 0 ==> j < r.Length && r[j] == u1
    requires single ==> m1 == 0
    modifies r
    ensures negative <==> Unsigned(u1) - Unsigned(m1) - Bit(dec) < 0
    ensures u1 != 0 ==> r[j] == if negative then -1 else 0
    ensures forall i :: 0 <= i < r.Length && (u1 != 0 ==> i != j) ==> r[i] == old(r[i])
  {
    if dec {
      if u1 == 0 {
        negative := true;
      } else {
        var c := if single then MbiDec(r[j]) else MbiSubtractWithDec(r[j], m1);
        r[j] := c.limb;
        negative := c.carry;
      }
    } else if m1 == 0 {
      negative := false;
    } else if u1 == 0 {
      negative := true;
    } else {
      var c := MbiSubtract(r[j], m1);
      r[j] := c.limb;
      negative := c.carry;
    }
  }

  /** Adds the divisor back once after a negative difference, which clears the word above the window. */
  method AddBack(oldU1: int32, d: array<int32>, dof: nat, r: array<int32>, ro: nat, n: nat) returns (carry: bool)
    requires ro + n <= r.Length && dof + n <= d.Length && r != d
    requires oldU1 != 0 ==> ro + n < r.Length && r[ro + n] == -1
    requires Pow(n) <= Val(r[ro..ro + n]) + Val(d[dof..dof + n])
    modifies r
    ensures carry && Val(r[ro..ro + n]) == old(Val(r[ro..ro + n])) + Val(d[dof..dof + n]) - Pow(n)
    ensures oldU1 != 0 ==> r[ro + n] == 0
    ensures forall i :: 0 <= i < r.Length && !(ro <= i < ro + n) && (oldU1 != 0 ==> i != ro + n) ==> r[i] == old(r[i])
  {
    hide Val, Pow;
    var inc := AddInto(r, ro, r, ro, d, dof, n);
    ValBound(r[ro..ro + n]);
    carry := false;
    ghost var done := r[ro..ro + n];
    if inc {
      if oldU1 == 0 {
        carry := true;
      } else {
        var c := MbiInc(r[ro + n]);
        r[ro + n] := c.limb;
        carry := c.carry;
      }
    }
    assert r[ro..ro + n] == done;
  }

  /** A limb string as its two leading words and what is below them. */
  lemma TwoTopWords(s: seq<int32>)
    requires |s| >= 2
    ensures var n := |s| - 2;
      Val(s) == Val(s[..n]) + Unsigned(s[n]) * Pow(n) + Unsigned(s[n + 1]) * (BASE * Pow(n)) && Val(s[..n]) < Pow(n)
  {
    hide Val, Pow, Unsigned;
    var n := |s| - 2;
    ValPrefix(s, n + 1);
    ValPrefix(s, n);
    assert s[..n + 2] == s;
    PowNext(n);
    ValBound(s[..n]);
  }

  /** The leading words of a limb string, as the estimate sees them. */
  lemma WindowOf(s: seq<int32>, u1: int32) returns (w: Window)
    requires |s| >= 2
    ensures w == Window(Unsigned(u1), Unsigned(s[|s| - 1]), Unsigned(s[|s| - 2]), Val(s[..|s| - 2]))
    ensures w.rest < Pow(|s| - 2) && WindowValue(w, Pow(|s| - 2)) == Val(s + [u1])
  {
    hide Val, Pow, Unsigned, WindowValue;
    var n := |s|;
    w := Window(Unsigned(u1), Unsigned(s[n - 1]), Unsigned(s[n - 2]), Val(s[..n - 2]));
    ValSnoc(s, u1);
    TwoTopWords(s);
    PowNext(n - 2);
    PowNext(n - 1);
    WindowSum(w, Pow(n - 2));
  }

  lemma WindowSum(w: Window, p: nat)
    ensures WindowValue(w, p) == w.rest + w.u3 * p + w.u2 * (BASE * p) + w.u1 * (BASE * (BASE * p))
  {
  }

  lemma DivisorOf(s: seq<int32>) returns (v: Divisor)
    requires |s| >= 2
    ensures v == Divisor(Unsigned(s[|s| - 1]), Unsigned(s[|s| - 2]), Val(s[..|s| - 2]), Pow(|s| - 2))
    ensures v.rest < v.place && DivisorValue(v) == Val(s)
  {
    hide Val, Pow, Unsigned;
    var n := |s|;
    TwoTopWords(s);
    v := Divisor(Unsigned(s[n - 1]), Unsigned(s[n - 2]), Val(s[..n - 2]), Pow(n - 2));
    assert DivisorValue(v) == v.rest + v.v2 * v.place + v.v1 * (BASE * v.place);
  }

  /** A window below `BASE` divisors does not start with a larger word than the divisor. */
  lemma LeadingWord(w: Window, v: Divisor)
    requires Shaped(w, v) && WindowValue(w, v.place) < BASE * DivisorValue(v)
    ensures w.u1 <= v.v1
  {
    DivisorBounds(w, v);
    hide DivisorValue, WindowValue;
    var big := BASE * v.place;
    assert (v.v1 + 1) * BASE * big == BASE * ((v.v1 + 1) * big);
    if v.v1 + 1 <= w.u1 {
      TimesMonotone((v.v1 + 1) * BASE, w.u1 * BASE + w.u2, big);
    }
  }

  /** The word of the quotient for the window at `k`: estimate, multiply and subtract, add back at most once. */
  method DivideStep(u1: int32, k: nat, r: array<int32>, d: array<int32>, dof: nat, n: nat) returns (digit: int32)
    requires 2 <= n && k + n <= r.Length && dof + n <= d.Length && r != d
    requires u1 != 0 ==> k + n < r.Length && r[k + n] == u1
    requires BASE <= 2 * Unsigned(d[dof + n - 1])
    requires Val(r[k..k + n] + [u1]) < BASE * Val(d[dof..dof + n])
    modifies r
    ensures old(Val(r[k..k + n] + [u1])) == Unsigned(digit) * Val(d[dof..dof + n]) + Val(r[k..k + n])
    ensures Val(r[k..k + n]) < Val(d[dof..dof + n])
    ensures forall i :: 0 <= i < r.Length && !(k <= i <= k + n) ==> r[i] == old(r[i])
  {
    hide Val, Pow, Unsigned, DivisorValue, WindowValue;
    ghost var s, y := r[k..k + n], d[dof..dof + n];
    ghost var w := WindowOf(s, u1);
    ghost var v := DivisorOf(y);
    UnsignedIsWord();
    LeadingWord(w, v);
    var qhat := EstimateQuotient(u1, r[k + n - 1], r[k + n - 2], d[dof + n - 1], d[dof + n - 2], w, v);
    digit := ApplyQuotient(u1, qhat, k, r, d, dof, n);
  }

  lemma UnsignedIsWord()
    ensures forall x: int32 :: Unsigned(x) < BASE
  {
  }

  /** Takes an estimate that is right or one too large, and leaves the true remainder. */
  method ApplyQuotient(u1: int32, qhat: int32, k: nat, r: array<int32>, d: array<int32>, dof: nat, n: nat)
    returns (digit: int32)
    requires k + n <= r.Length && dof + n <= d.Length && r != d
    requires u1 != 0 ==> k + n < r.Length && r[k + n] == u1
    requires (Unsigned(qhat) - 1) * Val(d[dof..dof + n]) <= Val(r[k..k + n] + [u1])
    requires Val(r[k..k + n] + [u1]) < (Unsigned(qhat) + 1) * Val(d[dof..dof + n])
    modifies r
    ensures old(Val(r[k..k + n] + [u1])) == Unsigned(digit) * Val(d[dof..dof + n]) + Val(r[k..k + n])
    ensures Val(r[k..k + n]) < Val(d[dof..dof + n])
    ensures forall i :: 0 <= i < r.Length && !(k <= i <= k + n) ==> r[i] == old(r[i])
  {
    hide Val, Pow, Unsigned;
    ghost var s, y := r[k..k + n], d[dof..dof + n];
    ghost var window, v, product := Val(s + [u1]), Val(y), Val(y) * Unsigned(qhat);
    ValSnoc(s, u1);
    ValBound(y);
    EstimateBounds(Unsigned(qhat), v, window);
    UnsignedInjective2(qhat, 0);
    UnsignedZero();
    digit := qhat;
    if qhat == 0 {
      NoTopWord(u1, Val(s), Pow(n), v);
    } else {
      var borrow := MultiplyAndSubtract(u1, qhat, d, dof, r, k, n, window - product);
      if borrow {
        var carry := AddBack(u1, d, dof, r, k, n);
        UnsignedDecrement(qhat);
        digit := Wrap(qhat - 1);
      }
    }
  }

  lemma EstimateBounds(q: nat, v: nat, window: nat)
    requires (q - 1) * v <= window < (q + 1) * v
    ensures v * q - v <= window < v * q + v
    ensures q * v == v * q && (q - 1) * v == v * q - v
  {
  }

  /** A window below the divisor has nothing above its limbs. */
  lemma NoTopWord(u1: int32, low: nat, p: nat, v: nat)
    requires low + Unsigned(u1) * p < v < p
    ensures u1 == 0
  {
    NoMultiple(Unsigned(u1), p);
  }

  lemma NoMultiple(u: nat, p: nat)
    requires u * p < p
    ensures u == 0
  {
    if u > 0 {
      TimesMonotone(1, u, p);
    }
  }

  /** The next lower limb keeps a part below the divisor below `BASE` divisors. */
  lemma NextWindow(low: int32, part: seq<int32>, v: nat)
    requires Val(part) < v
    ensures Val([low] + part) < BASE * v
  {
    ValCons(low, part);
    UnsignedIsWord();
  }

  /** One more word of the quotient accounts for its share of the dividend. */
  lemma DigitAccounted(x: nat, quotient: nat, place: nat, v: nat, low: nat, window: nat, digit: nat, remainder: nat)
    requires x == quotient * (BASE * place) * v + (low + place * window)
    requires window == digit * v + remainder
    ensures x == (digit + BASE * quotient) * place * v + (low + place * remainder)
  {
  }

  /** What is left of the dividend while the quotient words from `k + 1` up are known. */
  ghost predicate Accounted(x: nat, q: seq<int32>, k: int, r: seq<int32>, u1: int32, v: nat, n: nat)
    requires -1 <= k < |q| && 1 <= n && k + n <= |r|
  {
    && x == Val(q[k + 1..]) * Pow(k + 1) * v + Val(r[..k + n] + [u1])
    && Val(r[k + 1..k + n] + [u1]) < v
  }

  /** One turn of the loop keeps the account. */
  lemma AccountedNext(x: nat, q: seq<int32>, q': seq<int32>, k: nat, r: seq<int32>, r': seq<int32>, u1: int32,
          v: nat, n: nat)
    requires k < |q| == |q'| && 1 <= n && k + n <= |r| == |r'|
    requires Accounted(x, q, k, r, u1, v, n)
    requires q'[k + 1..] == q[k + 1..] && r'[..k] == r[..k]
    requires Val(r[k..k + n] + [u1]) == Unsigned(q'[k]) * v + Val(r'[k..k + n])
    requires Val(r'[k..k + n]) < v
    ensures Accounted(x, q', k - 1, r', r'[k + n - 1], v, n)
  {
    hide Val, Pow, Unsigned;
    var low := r[..k];
    assert r[..k + n] + [u1] == low + (r[k..k + n] + [u1]);
    ValConcat(low, r[k..k + n] + [u1]);
    assert r'[..k - 1 + n] + [r'[k + n - 1]] == low + r'[k..k + n];
    ValConcat(low, r'[k..k + n]);
    assert r'[k - 1 + 1..k - 1 + n] + [r'[k + n - 1]] == r'[k..k + n];
    assert q'[k..] == [q'[k]] + q[k + 1..];
    ValCons(q'[k], q[k + 1..]);
    PowNext(k);
    DigitAccounted(x, Val(q[k + 1..]), Pow(k), v, Val(low), Val(r[k..k + n] + [u1]), Unsigned(q'[k]),
                   Val(r'[k..k + n]));
  }

  /** The window of `k` is below `BASE` divisors. */
  lemma WindowBelow(x: nat, q: seq<int32>, k: nat, r: seq<int32>, u1: int32, v: nat, n: nat)
    requires k < |q| && 1 <= n && k + n <= |r| && Accounted(x, q, k, r, u1, v, n)
    ensures Val(r[k..k + n] + [u1]) < BASE * v
  {
    assert r[k..k + n] + [u1] == [r[k]] + (r[k + 1..k + n] + [u1]);
    NextWindow(r[k], r[k + 1..k + n] + [u1], v);
  }

  /** At the start nothing is in the quotient and the top words of the dividend are below the divisor. */
  lemma AccountedFirst(r: seq<int32>, q: seq<int32>, y: seq<int32>, u1: int32, k: int)
    requires 1 <= |y| && |q| == k + 1 && 0 <= k + |y| <= |r| && -1 <= k
    requires Unsigned(u1) < Unsigned(y[|y| - 1])
    requires Val(r) == Val(r[..k + |y|] + [u1])
    ensures Accounted(Val(r), q, k, r, u1, Val(y), |y|)
  {
    hide Val, Pow, Unsigned;
    var n := |y|;
    var part := r[k + 1..k + n];
    assert q[k + 1..] == [];
    ValEmpty();
    NothingTimes(Pow(k + 1), Val(y));
    ValSnoc(part, u1);
    ValBound(part);
    ValPrefix(y, n - 1);
    assert y[..n - 1 + 1] == y;
    PartBelow(Val(part), Unsigned(u1), Pow(n - 1), Unsigned(y[n - 1]));
  }

  lemma NothingTimes(a: nat, b: nat)
    ensures 0 * a * b == 0
  {
  }

  lemma PartBelow(low: nat, u: nat, p: nat, top: nat)
    requires low < p && u < top
    ensures low + u * p < top * p
  {
    TimesMonotone(u + 1, top, p);
  }

  lemma SliceOfPrefix(a: array<int32>, n: nat, i: nat, j: nat)
    requires i <= j <= n <= a.Length
    ensures a[..n][i..j] == a[i..j]
  {
  }

  /** One turn of the division: stores the next lower word of the quotient and accounts for it. */
  method NextDigit(q: array<int32>, qlen: nat, k: nat, r: array<int32>, nlen: nat, u1: int32, d: array<int32>,
          dof: nat, dlen: nat, ghost x: nat)
    requires 2 <= dlen && k < qlen <= q.Length && k + dlen <= nlen <= r.Length && dof + dlen <= d.Length
    requires r != d && q != d && q != r
    requires BASE <= 2 * Unsigned(d[dof + dlen - 1])
    requires u1 != 0 ==> k + dlen < nlen && r[k + dlen] == u1
    requires Accounted(x, q[..qlen], k, r[..nlen], u1, Val(d[dof..dof + dlen]), dlen)
    modifies r, q
    ensures Accounted(x, q[..qlen], k - 1, r[..nlen], r[k + dlen - 1], Val(d[dof..dof + dlen]), dlen)
  {
    hide Val, Pow, Unsigned, Accounted;
    ghost var s, p, v := r[..nlen], q[..qlen], Val(d[dof..dof + dlen]);
    WindowBelow(x, p, k, s, u1, v, dlen);
    SliceOfPrefix(r, nlen, k, k + dlen);
    q[k] := DivideStep(u1, k, r, d, dof, dlen);
    SliceOfPrefix(r, nlen, k, k + dlen);
    assert q[..qlen][k + 1..] == p[k + 1..];
    assert r[..nlen][..k] == s[..k];
    AccountedNext(x, p, q[..qlen], k, s, r[..nlen], u1, v, dlen);
  }

  /**
   The quotient and the remainder of the limbs `r[..nlen]` by a divisor whose top bit is set. The quotient goes to
   `storage` when that is large enough for it.
   */
  method DivideNormalized(r: array<int32>, nlen: nat, d: array<int32>, dof: nat, dlen: nat, storage: array<int32>)
    returns (q: array<int32>, qlen: nat)
    requires 2 <= dlen <= nlen <= r.Length && dof + dlen <= d.Length && 0 < storage.Length
    requires r != d && storage != d && storage != r
    requires BASE <= 2 * Unsigned(d[dof + dlen - 1])
    modifies r, storage
    ensures (q == storage || fresh(q)) && q.Length == DoubledUntil(storage.Length, qlen)
    ensures GoodCapacity(storage.Length) ==> GoodCapacity(q.Length)
    ensures nlen - dlen <= qlen <= nlen - dlen + 1
    ensures old(Val(r[..nlen])) == Val(q[..qlen]) * Val(d[dof..dof + dlen]) + Val(r[..dlen])
    ensures Val(r[..dlen]) < Val(d[dof..dof + dlen])
  {
    hide Val, Pow, Unsigned, Accounted, GoodCapacity;
    ghost var x, y, v := r[..nlen], d[dof..dof + dlen], Val(d[dof..dof + dlen]);
    var j: int := nlen - 1;
    var u1: int32 := 0;
    var u2 := r[j];
    var v1 := d[dof + dlen - 1];
    var k: int;
    if UnsignedGreaterThan(v1, u2) {
      qlen := nlen - dlen;
      k := qlen - 1;
      j := j - 1;
      u1 := u2;
      UnsignedGreater(v1, u2);
      assert x[..nlen - 1] + [u1] == x;
    } else {
      k := nlen - dlen;
      qlen := k + 1;
      UnsignedZero();
      ValSnoc(x, 0);
      assert x[..nlen] == x;
    }
    q := storage;
    if storage.Length < qlen {
      q := NewZeros(storage.Length, qlen);
    }
    AccountedFirst(x, q[..qlen], y, u1, k);
    while k >= 0
      invariant -1 <= k < qlen <= q.Length && j == k + dlen - 1
      invariant u1 != 0 ==> k + dlen < nlen && r[k + dlen] == u1
      invariant k == -1 ==> u1 == r[dlen - 1]
      invariant Accounted(Val(x), q[..qlen], k, r[..nlen], u1, v, dlen)
    {
      j := j - 1;
      NextDigit(q, qlen, k, r, nlen, u1, d, dof, dlen, Val(x));
      k := k - 1;
      u1 := r[j + 1];
    }
    AccountedLast(Val(x), q[..qlen], r[..nlen], v, dlen);
    assert r[..nlen][..dlen] == r[..dlen];
  }

  /** At the end the quotient is complete and what is left is the remainder. */
  lemma AccountedLast(x: nat, q: seq<int32>, r: seq<int32>, v: nat, n: nat)
    requires 1 <= n <= |r| && Accounted(x, q, -1, r, r[n - 1], v, n)
    ensures x == Val(q) * v + Val(r[..n]) && Val(r[..n]) < v
  {
    assert r[..n - 1] + [r[n - 1]] == r[..n] == r[0..n - 1] + [r[n - 1]];
    assert q[0..] == q;
    ValEmpty();
  }
}
