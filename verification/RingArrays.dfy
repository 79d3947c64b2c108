/** RING_ARRAY: a sequence with an arbitrary lower bound, kept in one circular chunk of storage. */
module RingArrays {

  /** The effect of `move`: the items `a..b` reappear `d` places further, and slots left behind are blank. */
  ghost function Moved<T>(s: seq<T>, a: int, b: int, d: int, blank: T): (r: seq<T>)
    requires a <= b ==> 0 <= a && b < |s| && 0 <= a + d && b + d < |s|
    ensures |r| == |s|
  {
    seq(|s|, k requires 0 <= k < |s| =>
      if a + d <= k <= b + d then s[k - d] else if a <= k <= b then blank else s[k])
  }

  lemma MovedDown<T>(s: seq<T>, a: int, i: int, d: int, blank: T)
    requires d < 0 && 0 <= a + d && a <= i < |s|
    ensures Moved(s, a, i, d, blank) == Moved(s, a, i - 1, d, blank)[i + d := s[i]][i := blank]
    ensures Moved(s, a, i - 1, d, blank)[i] == s[i]
  {
  }

  lemma MovedUp<T>(s: seq<T>, i: int, b: int, d: int, blank: T)
    requires 0 < d && 0 <= i <= b && b + d < |s|
    ensures Moved(s, i, b, d, blank) == Moved(s, i + 1, b, d, blank)[i + d := s[i]][i := blank]
    ensures Moved(s, i + 1, b, d, blank)[i] == s[i]
  {
  }

  lemma MovedNowhere<T>(s: seq<T>, a: int, b: int, d: int, blank: T)
    requires b < a || (d == 0 && 0 <= a && b < |s|)
    ensures Moved(s, a, b, d, blank) == s
  {
  }

  /** The items before the gap move over it, and the window then starts `length` items later. */
  lemma SqueezedFromFront<T>(s: seq<T>, a: int, p: int, length: int, blank: T, r: seq<T>)
    requires 0 <= a <= p && 0 < length && p + length <= |s| == |r|
    requires forall k :: 0 <= k < |s| - length ==> r[k] == Moved(s, a, p - 1, length, blank)[k + length]
    ensures forall k :: a <= k < |s| - length ==> r[k] == s[if k < p then k else k + length]
  {
  }

  /** The items behind the gap, up to `b`, move back over it. */
  lemma SqueezedFromBack<T>(s: seq<T>, p: int, b: int, length: int, blank: T, r: seq<T>)
    requires 0 <= p && 0 < length && b < |s|
    requires r == Moved(s, p + length, b, -length, blank)
    ensures forall k :: 0 <= k <= b - length ==> r[k] == s[if k < p then k else k + length]
  {
  }

  /** Slot `k` after `from` in a circle of `size` slots. */
  function Around(from: int, k: int, size: int): int {
    if from + k >= size then from + k - size else from + k
  }

  /** The `n` items met from slot `from` on, going round the storage. */
  ghost function Window<T>(storage: seq<T>, from: nat, n: nat): (r: seq<T>)
    requires n <= |storage| && (n > 0 ==> from < |storage|)
    ensures |r| == n
  {
    seq(n, k requires 0 <= k < n => storage[Around(from, k, |storage|)])
  }

  /** Doubling a full storage opens a gap of blank slots at the point where the window wraps. */
  lemma DoubledWindow<T>(storage: seq<T>, doubled: seq<T>, from: nat)
    requires from < |storage| && |doubled| == 2 * |storage| && doubled[..|storage|] == storage
    ensures var n := |storage|;
      forall k :: 0 <= k < n ==>
        Window(doubled, from, 2 * n)[if k < n - from then k else k + n] == Window(storage, from, n)[k]
  {
  }

  lemma WindowPrefix<T>(storage: seq<T>, from: nat, n: nat, m: nat)
    requires n <= m <= |storage| && from < |storage|
    ensures Window(storage, from, n) == Window(storage, from, m)[..n]
  {
  }

  /** Storing into the slot before the window extends it at the front. */
  lemma WindowPushed<T>(storage: seq<T>, from: nat, n: nat, to: nat, x: T)
    requires n < |storage| && from < |storage| && to == (if from == 0 then |storage| - 1 else from - 1)
    ensures Window(storage[to := x], to, n + 1) == [x] + Window(storage, from, n)
  {
  }

  class RingArray<T> {
    const blank: T
    var storage: array<T>
    var capacity: int
    var lower: int
    var upper: int
    var storageLower: int
    var generation: int

    ghost predicate Valid()
      reads `storage, `capacity, `lower, `upper, `storageLower
    {
      && 0 <= capacity == storage.Length
      && 0 <= Count() <= capacity
      && (0 <= storageLower < capacity || storageLower == capacity == 0)
    }

    function Count(): int
      reads `lower, `upper
    {
      upper - lower + 1
    }

    function StorageIndex(i: int): int
      reads `lower, `storageLower, `capacity
    {
      Around(storageLower, i - lower, capacity)
    }

    /** Storage slots are in bounds and never shared by two indices. */
    lemma IndexIsInjective()
      requires Valid()
      ensures forall i :: lower <= i <= upper ==> 0 <= StorageIndex(i) < capacity
      ensures forall i, j :: lower <= i < j <= upper ==> StorageIndex(i) != StorageIndex(j)
    {
    }

    /** The abstract value: the items from `lower` to `upper`. */
    ghost function View(): (s: seq<T>)
      requires Valid()
      reads `storage, `capacity, `lower, `upper, `storageLower, storage
      ensures |s| == Count()
    {
      Window(storage[..], storageLower, Count())
    }

    /** A zero-initialised object, before its creation procedure. */
    constructor (blank: T)
      ensures Valid() && View() == [] && capacity == 0 && fresh(storage) && this.blank == blank
    {
      this.blank := blank;
      storage := new T[0];
      capacity, lower, upper, storageLower, generation := 0, 0, -1, 0, 0;
    }

    method WithCapacity(neededCapacity: int, low: int)
      requires Valid() && 0 <= neededCapacity
      modifies this
      ensures Valid() && View() == [] && lower == low
      ensures capacity == if old(capacity) < neededCapacity then neededCapacity else old(capacity)
      ensures storage == old(storage) || fresh(storage)
      ensures generation == old(generation) + 1
    {
      if capacity < neededCapacity {
        var b := blank;
        storage := new T[neededCapacity](_ => b);
        capacity := neededCapacity;
      }
      lower := low;
      upper := low - 1;
      storageLower := 0;
      generation := generation + 1;
    }

    method Item(i: int) returns (x: T)
      requires Valid() && lower <= i <= upper
      ensures x == View()[i - lower]
    {
      x := storage[StorageIndex(i)];
    }

    method Put(element: T, i: int)
      requires Valid() && lower <= i <= upper
      modifies storage, `generation
      ensures View() == old(View())[i - lower := element]
      ensures generation == old(generation) + 1
    {
      storage[StorageIndex(i)] := element;
      generation := generation + 1;
    }

    /** Moves the items of `a..b` by `d`, in the order that never overwrites an item still to be moved. */
    method Move(a: int, b: int, d: int)
      requires Valid()
      requires a <= b ==> lower <= a && b <= upper && lower <= a + d && b + d <= upper
      modifies storage, `generation
      ensures View() == Moved(old(View()), a - lower, b - lower, d, blank)
      ensures generation >= old(generation)
    {
      if d == 0 {
        MovedNowhere(View(), a - lower, b - lower, d, blank);
      } else if d < 0 {
        MoveDown(a, b, d);
      } else {
        MoveUp(a, b, d);
      }
    }

    /** The upward scan of `move`. */
    method MoveDown(a: int, b: int, d: int)
      requires Valid() && d < 0 && (a <= b ==> b <= upper && lower <= a + d)
      modifies storage, `generation
      ensures View() == Moved(old(View()), a - lower, b - lower, d, blank)
      ensures generation >= old(generation)
    {
      hide View, Moved;
      ghost var s, lo := View(), a - lower;
      var i := a;
      MovedNowhere(s, lo, i - 1 - lower, d, blank);
      while i <= b
        invariant a <= i && (if a <= b then i <= b + 1 else i == a)
        invariant View() == Moved(s, lo, i - 1 - lower, d, blank) && generation >= old(generation)
      {
        MovedDown(s, lo, i - lower, d, blank);
        var x := Item(i);
        Put(x, i + d);
        Put(blank, i);
        i := i + 1;
      }
      if b < a {
        MovedNowhere(s, lo, b - lower, d, blank);
      }
    }

    /** The downward scan of `move`. */
    method MoveUp(a: int, b: int, d: int)
      requires Valid() && 0 < d && (a <= b ==> lower <= a && b + d <= upper)
      modifies storage, `generation
      ensures View() == Moved(old(View()), a - lower, b - lower, d, blank)
      ensures generation >= old(generation)
    {
      hide View, Moved;
      ghost var s, hi := View(), b - lower;
      var i := b;
      MovedNowhere(s, i + 1 - lower, hi, d, blank);
      while i >= a
        invariant i <= b && (if a <= b then a - 1 <= i else i == b)
        invariant View() == Moved(s, i + 1 - lower, hi, d, blank) && generation >= old(generation)
      {
        MovedUp(s, i - lower, hi, d, blank);
        var x := Item(i);
        Put(x, i + d);
        Put(blank, i);
        i := i - 1;
      }
      if b < a {
        MovedNowhere(s, a - lower, hi, d, blank);
      }
    }

    /** Lets the first `length` slots of the window fall off its front. */
    method AdvanceStorage(length: int)
      requires Valid() && 0 < length < Count()
      modifies `storageLower
      ensures Valid() && storageLower == Around(old(storageLower), length, capacity)
      ensures forall k :: 0 <= k < Count() - length ==> View()[k] == old(View())[k + length]
    {
      storageLower := storageLower + length;
      if storageLower >= capacity {
        storageLower := storageLower - capacity;
      }
    }

    /**
     Closes a gap of `length` items at `pos`. The side with fewer items is moved, and the window starts later when that
     is the front; either way, reading from `min` meets the items before the gap and then those after it.
     */
    method SqueezeBubble(min: int, max: int, pos: int, length: int)
      requires Valid() && lower <= min && max <= upper && min < pos <= max - length && 0 < length
      modifies storage, `storageLower, `generation
      ensures Valid()
      ensures forall k :: min - lower <= k <= max - length - lower ==>
        View()[k] == old(View())[if k < pos - lower then k else k + length]
      ensures storageLower ==
        if pos - min <= max - (pos + length) then Around(old(storageLower), length, capacity) else old(storageLower)
      ensures generation > old(generation)
    {
      hide View, Moved;
      ghost var s := View();
      if pos - min <= max - pos - length {
        Move(min, pos - 1, length);
        AdvanceStorage(length);
        SqueezedFromFront(s, min - lower, pos - lower, length, blank, View());
      } else {
        Move(pos + length, max, -length);
        SqueezedFromBack(s, pos - lower, max - lower, length, blank, View());
      }
      generation := generation + 1;
    }

    function WrapPoint(): int
      reads `capacity, `lower, `storageLower
    {
      capacity + lower - storageLower
    }

    /** `realloc` of the storage: the prefix is kept, the rest is blank. */
    method Realloc(oldCapacity: int, newCapacity: int)
      requires oldCapacity == storage.Length <= newCapacity
      modifies `storage
      ensures fresh(storage) && storage.Length == newCapacity && storage[..oldCapacity] == old(storage[..])
    {
      var s, b := storage, blank;
      storage := new T[newCapacity](k reads s => if 0 <= k < s.Length then s[k] else b);
    }

    /** The items `s` of a storage that was full and has been doubled: the bubble where they wrap is squeezed out. */
    method SqueezeWrap(wp: int, oldCapacity: int, ghost s: seq<T>)
      requires Valid() && Count() == |s| == oldCapacity && capacity == 2 * oldCapacity
      requires 0 < storageLower < oldCapacity && wp == lower + oldCapacity - storageLower
      requires var gapped := Window(storage[..], storageLower, capacity); forall k :: 0 <= k < oldCapacity ==>
        gapped[if k < oldCapacity - storageLower then k else k + oldCapacity] == s[k]
      modifies storage, `storageLower, `upper, `generation
      ensures Valid() && View() == s && upper == old(upper) && generation > old(generation)
    {
      hide Window;
      upper := upper + capacity - oldCapacity;
      SqueezeBubble(lower, upper, wp, capacity - oldCapacity);
      WindowPrefix(storage[..], storageLower, oldCapacity, capacity);
      assert forall k :: 0 <= k < oldCapacity ==> View()[k] == s[k];
      upper := upper - capacity + oldCapacity;
    }

    /** Doubles a full storage. */
    method Double()
      requires Valid() && Count() == capacity > 0
      modifies this, storage
      ensures Valid() && View() == old(View()) && capacity == 2 * old(capacity) && fresh(storage)
      ensures lower == old(lower) && upper == old(upper)
      ensures generation >= old(generation)
    {
      hide Window;
      var wp := WrapPoint();
      var su := StorageIndex(upper);
      var oldCapacity := capacity;
      ghost var s := View();
      capacity := 2 * capacity;
      Realloc(oldCapacity, capacity);
      DoubledWindow(old(storage[..]), storage[..], storageLower);
      if su < storageLower {
        SqueezeWrap(wp, oldCapacity, s);
      } else {
        WindowPrefix(storage[..], storageLower, oldCapacity, capacity);
      }
    }

    /** Makes sure that the storage can hold one more item; the items stay the same. */
    method MakeSpaceForOne()
      requires Valid()
      modifies this, storage
      ensures Valid() && Count() < capacity && View() == old(View())
      ensures lower == old(lower) && upper == old(upper)
      ensures capacity ==
        if old(capacity > Count()) then old(capacity) else if old(capacity) == 0 then 16 else 2 * old(capacity)
      ensures storage == old(storage) || fresh(storage)
      ensures generation > old(generation)
    {
      if capacity < Count() + 1 {
        if capacity == 0 {
          capacity := 16;
          var b := blank;
          storage := new T[capacity](_ => b);
        } else {
          Double();
        }
      }
      generation := generation + 1;
    }

    /** Puts an item before the first one; `lower` stays, the other items move one index up. */
    method AddFirst(element: T)
      requires Valid()
      modifies this, storage
      ensures Valid() && View() == [element] + old(View())
      ensures lower == old(lower) && (storage == old(storage) || fresh(storage))
      ensures generation > old(generation)
    {
      MakeSpaceForOne();
      ghost var s, from := storage[..], storageLower;
      upper := upper + 1;
      storageLower := storageLower - 1;
      if storageLower < 0 {
        storageLower := storageLower + capacity;
      }
      WindowPushed(s, from, Count() - 1, storageLower, element);
      storage[storageLower] := element;
      assert storage[..] == s[storageLower := element];
      generation := generation + 1;
    }

    method AddLast(element: T)
      requires Valid()
      modifies this, storage
      ensures Valid() && View() == old(View()) + [element]
      ensures lower == old(lower) && (storage == old(storage) || fresh(storage))
      ensures generation > old(generation)
    {
      MakeSpaceForOne();
      ghost var v := View();
      upper := upper + 1;
      assert View()[..|v|] == v;
      Put(element, upper);
    }

    method RemoveFirst()
      requires Valid() && View() != []
      modifies `lower, `storageLower, `generation
      ensures Valid() && View() == old(View())[1..]
      ensures lower == old(lower) + 1
      ensures generation == old(generation) + 1
    {
      lower := lower + 1;
      storageLower := storageLower + 1;
      if storageLower == capacity {
        storageLower := 0;
      }
      generation := generation + 1;
    }

    /** Lets the last index go. */
    method DropLast()
      requires Valid() && lower <= upper
      modifies `upper, `generation
      ensures Valid() && View() == old(View())[..old(Count()) - 1]
      ensures generation == old(generation) + 1
    {
      upper := upper - 1;
      generation := generation + 1;
    }

    /** Moves the items so that the one at `index`, not the last, is no longer among those before `upper`. */
    method CloseGap(index: int)
      requires Valid() && lower <= index < upper
      modifies `storageLower, `generation, storage
      ensures Valid()
      ensures forall k :: 0 <= k < Count() - 1 ==> View()[k] == old(View())[if k < index - lower then k else k + 1]
      ensures generation >= old(generation)
    {
      if index != lower {
        SqueezeBubble(lower, upper, index, 1);
      } else {
        storageLower := storageLower + 1;
        if storageLower == capacity {
          storageLower := 0;
        }
      }
    }

    /** Takes out the item at `index`; the items behind it move one index down. */
    method Remove(index: int)
      requires Valid() && lower <= index <= upper
      modifies `upper, `storageLower, `generation, storage
      ensures Valid() && View() == old(View())[..index - lower] + old(View())[index - lower + 1..]
      ensures lower == old(lower)
      ensures generation > old(generation)
    {
      hide View;
      if index != upper {
        CloseGap(index);
      }
      DropLast();
    }

    method ClearCount()
      requires Valid()
      modifies `upper, `generation
      ensures Valid() && View() == [] && lower == old(lower) && capacity == old(capacity)
      ensures generation == old(generation) + 1
    {
      upper := lower - 1;
      generation := generation + 1;
    }
  }
}
