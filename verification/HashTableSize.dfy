/**
 The growth policy shared by every hashed container: a fixed table of capacities, the search for the
 least entry that is large enough, and the 32-bit arithmetic of the growth step.
 */
module HashTableSize {
  import opened Int32

  const MAX_INT32: int32 := 0x7FFF_FFFF

  /** The capacity given to a container that is created without an explicit size. */
  const DEFAULT_SIZE: int32 := 53

  const ENTRIES := 30

  /** The table of capacities, smallest first. */
  function CapacityAt(k: nat): int32
    requires k < ENTRIES
  {
    match k
    case 0 => 3 case 1 => 11 case 2 => 23
    case 3 => 53 case 4 => 97 case 5 => 193
    case 6 => 389 case 7 => 769 case 8 => 1543
    case 9 => 3079 case 10 => 6151 case 11 => 12289
    case 12 => 24593 case 13 => 49157 case 14 => 98317
    case 15 => 196613 case 16 => 393241 case 17 => 786433
    case 18 => 1572869 case 19 => 3145739 case 20 => 6291469
    case 21 => 12582917 case 22 => 25165843 case 23 => 50331653
    case 24 => 100663319 case 25 => 201326611 case 26 => 402653189
    case 27 => 805306457 case 28 => 1610612741 case _ => 2147483647
  }

  ghost predicate IsTableEntry(c: int) {
    exists k :: 0 <= k < ENTRIES && CapacityAt(k) == c
  }

  /** The rank in the table of the entry that the binary decision tree selects for `n`. */
  function CeilingIndex(n: int32): (k: nat)
    ensures k < ENTRIES && n <= CapacityAt(k)
    ensures k > 0 ==> CapacityAt(k - 1) < n
  {
    if n <= 98317 then
      if n <= 769 then
        if n <= 53 then
          if n <= 11 then (if n <= 3 then 0 else 1) else (if n <= 23 then 2 else 3)
        else
          if n <= 193 then (if n <= 97 then 4 else 5) else (if n <= 389 then 6 else 7)
      else
        if n <= 12289 then
          if n <= 3079 then (if n <= 1543 then 8 else 9) else (if n <= 6151 then 10 else 11)
        else
          if n <= 24593 then 12 else (if n <= 49157 then 13 else 14)
    else
      if n <= 12582917 then
        if n <= 1572869 then
          if n <= 393241 then (if n <= 196613 then 15 else 16) else (if n <= 786433 then 17 else 18)
        else
          if n <= 3145739 then 19 else (if n <= 6291469 then 20 else 21)
      else
        if n <= 201326611 then
          if n <= 50331653 then (if n <= 25165843 then 22 else 23) else (if n <= 100663319 then 24 else 25)
        else
          if n <= 805306457 then (if n <= 402653189 then 26 else 27) else (if n <= 1610612741 then 28 else 29)
  }

  /** The least table entry that is not below `n`. */
  function PrimeNumberCeiling(n: int32): (r: int32)
    ensures n <= r
    ensures IsTableEntry(r)
  {
    CapacityAt(CeilingIndex(n))
  }

  /** The 1.5 growth step; a sum that wraps to a negative number selects the largest capacity. */
  function PrimeCapacity(capacity: int32): (r: int32)
    requires 0 <= capacity
    ensures IsTableEntry(r)
    ensures capacity <= r
  {
    var r := Wrap(capacity + capacity / 2);
    if r >= 0 then PrimeNumberCeiling(r) else PrimeNumberCeiling(MAX_INT32)
  }

  /** True when a container of `capacity` buckets must grow before it takes one more node. */
  predicate ShouldIncreaseCapacity(capacity: int32, count: int)
    requires 0 <= capacity
  {
    count > Wrap(capacity / 3 * 2) && capacity < MAX_INT32
  }

  /** The load of a table in use: never more than the node just added above the growth threshold. */
  ghost predicate LoadOk(capacity: int32, count: int) {
    IsTableEntry(capacity) && (count <= 2 * (capacity / 3) + 1 || capacity == MAX_INT32)
  }

  lemma {:induction false} TableIsIncreasing(i: nat, j: nat)
    requires i < j < ENTRIES
    ensures CapacityAt(i) < CapacityAt(j)
  {
  }

  lemma TableStep(j: nat)
    requires 0 < j < ENTRIES
    ensures CapacityAt(j - 1) < CapacityAt(j)
  {
  }

  /** No table entry lies between the argument and the ceiling that is selected for it. */
  lemma CeilingIsLeast(n: int32, k: nat)
    requires k < ENTRIES && n <= CapacityAt(k)
    ensures PrimeNumberCeiling(n) <= CapacityAt(k)
  {
  }

  /** Any argument strictly above one entry and not above the next is rounded up to the next. */
  lemma CeilingIsUnique(n: int32, k: nat)
    requires k + 1 < ENTRIES && CapacityAt(k) < n <= CapacityAt(k + 1)
    ensures PrimeNumberCeiling(n) == CapacityAt(k + 1)
  {
    hide CapacityAt, CeilingIndex;
    CeilingIsLeast(n, k + 1);
    var c := CeilingIndex(n);
    if c < k {
      TableIsIncreasing(c, k);
    } else if k + 1 < c {
      TableIsIncreasing(k + 1, c);
    }
  }

  /** Half as much again stays inside the gap to the next entry, up to the last but one entry. */
  lemma GrowthStepFits(k: nat)
    requires k + 2 < ENTRIES
    ensures CapacityAt(k) < CapacityAt(k) + 1 + (CapacityAt(k) + 1) / 2 <= CapacityAt(k + 1)
  {
  }

  lemma EntriesArePositive(c: int)
    requires IsTableEntry(c)
    ensures 3 <= c
  {
  }

  lemma EndOfTable()
    ensures CapacityAt(28) == 1610612741 && CapacityAt(29) == MAX_INT32
  {
  }

  /** The step from `n`, when half as much again lands above entry `k` and not above the next. */
  lemma StepIntoGap(n: int32, k: nat)
    requires 0 <= n && k + 1 < ENTRIES && CapacityAt(k) < n + n / 2 <= CapacityAt(k + 1)
    ensures PrimeCapacity(n) == CapacityAt(k + 1)
  {
    hide CapacityAt, CeilingIndex, PrimeNumberCeiling, Wrap;
    WrapInRange(n + n / 2);
    CeilingIsUnique(n + n / 2, k);
  }

  /**
   Growing by the source's step always moves to the very next table entry, also where the 32-bit sum wraps.
   */
  lemma GrowthTakesNextEntry(k: nat)
    requires k + 1 < ENTRIES
    ensures CapacityAt(k) < PrimeCapacity(CapacityAt(k) + 1) == CapacityAt(k + 1)
  {
    EndOfTable();
    TableStep(k + 1);
    hide CapacityAt, CeilingIndex, PrimeNumberCeiling, Wrap;
    if k + 2 < ENTRIES {
      GrowthStepFits(k);
      StepIntoGap(CapacityAt(k) + 1, k);
    } else {
      LastStepWraps();
      CeilingIsUnique(MAX_INT32, k);
    }
  }

  /**
   The capacity after one more key: the old one as long as not more than two in three buckets' worth are stored, counted
   in whole thirds, or when it is the largest; otherwise the next entry of the table.
   */
  ghost predicate AfterOneMore(before: int, count: int, after: int) {
    if count <= 2 * (before / 3) || before == MAX_INT32 then after == before
    else exists k :: 0 <= k < ENTRIES - 1 && CapacityAt(k) == before && CapacityAt(k + 1) == after
  }

  lemma GrowsToNext(capacity: int32, count: int)
    requires IsTableEntry(capacity)
    ensures AfterOneMore(capacity, count,
      if ShouldIncreaseCapacity(capacity, count) then PrimeCapacity(capacity + 1) else capacity)
  {
    EntriesArePositive(capacity);
    WrapInRange(capacity / 3 * 2);
    if count > 2 * (capacity / 3) && capacity < MAX_INT32 {
      var k :| 0 <= k < ENTRIES && CapacityAt(k) == capacity;
      EndOfTable();
      GrowthTakesNextEntry(k);
    }
  }

  /** The 1.5 step in general: the least entry that is large enough, the largest when the sum does not fit a word. */
  lemma PrimeCapacityIsLeast(n: int32, k: nat)
    requires 0 <= n && k < ENTRIES
    ensures n + n / 2 <= MAX_INT32 ==> n + n / 2 <= PrimeCapacity(n)
    ensures n + n / 2 <= CapacityAt(k) ==> PrimeCapacity(n) <= CapacityAt(k)
    ensures n + n / 2 > MAX_INT32 ==> PrimeCapacity(n) == MAX_INT32
  {
    hide CapacityAt, CeilingIndex;
    if n + n / 2 <= MAX_INT32 {
      WrapInRange(n + n / 2);
      hide Wrap;
      if n + n / 2 <= CapacityAt(k) {
        CeilingIsLeast(n + n / 2, k);
      }
    } else {
      WrapsNegative(n);
      EndOfTable();
      CeilingIsLeast(MAX_INT32, 29);
    }
  }

  lemma WrapsNegative(n: int32)
    requires n + n / 2 > MAX_INT32
    ensures Wrap(n + n / 2) < 0
  {
  }

  /** After a growth step the load threshold lies above the one that was just passed. */
  lemma GrowthLeavesRoom(capacity: int32)
    requires IsTableEntry(capacity) && capacity < MAX_INT32
    ensures PrimeCapacity(capacity + 1) / 3 > capacity / 3
  {
    var k :| 0 <= k < ENTRIES && CapacityAt(k) == capacity;
    EndOfTable();
    GrowthTakesNextEntry(k);
    GapIsWide(k);
  }

  lemma GapIsWide(k: nat)
    requires k + 1 < ENTRIES
    ensures CapacityAt(k) + 3 <= CapacityAt(k + 1)
  {
  }

  lemma LastStepWraps()
    ensures Wrap(1610612742 + 1610612742 / 2) < 0
  {
  }
}
