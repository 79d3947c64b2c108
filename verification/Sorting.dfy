/** The in-place quicksort shared by all sorters, and the `is_sorted` shortcut in front of it. */
module Sorting {

  /** A collection with bounds `lower..upper` over a storage that may be larger. */
  class Collection<T> {
    var storage: array<T>
    var lower: int
    var upper: int

    ghost predicate Valid()
      reads this
    {
      0 <= upper - lower + 1 <= storage.Length
    }

    /** The items from `lower` to `upper`. */
    ghost function View(): (s: seq<T>)
      requires Valid()
      reads this, storage
      ensures |s| == upper - lower + 1
    {
      storage[..upper - lower + 1]
    }

    constructor (s: array<T>, lower: int, upper: int)
      requires 0 <= upper - lower + 1 <= s.Length
      ensures Valid() && storage == s && this.lower == lower && this.upper == upper
    {
      storage, this.lower, this.upper := s, lower, upper;
    }

    method Item(i: int) returns (x: T)
      requires Valid() && lower <= i <= upper
      ensures x == View()[i - lower]
    {
      x := storage[i - lower];
    }

    method Swap(i: int, j: int)
      requires Valid() && lower <= i <= upper && lower <= j <= upper
      modifies storage
      ensures View() == Swapped(old(View()), i - lower, j - lower)
    {
      storage[i - lower], storage[j - lower] := storage[j - lower], storage[i - lower];
    }
  }

  function Swapped<T>(s: seq<T>, i: nat, j: nat): seq<T>
    requires i < |s| && j < |s|
  {
    s[i := s[j]][j := s[i]]
  }

  type Comparator<!T> = (T, T) -> bool

  /** `t` rearranges the items `l..r` (inclusive) of `s` and leaves all others alone. */
  ghost predicate Rearranged<T>(s: seq<T>, t: seq<T>, l: int, r: int) {
    && |s| == |t|
    && 0 <= l <= r + 1 <= |s|
    && s[..l] == t[..l]
    && s[r + 1..] == t[r + 1..]
    && multiset(s[l..r + 1]) == multiset(t[l..r + 1])
  }

  ghost predicate StrictOrder<T(!new)>(lt: Comparator<T>) {
    && (forall x :: !lt(x, x))
    && (forall x, y, z :: lt(x, y) && lt(y, z) ==> lt(x, z))
  }

  /** No item is less than another that is less than it; in particular none is less than itself. */
  ghost predicate Asymmetric<T(!new)>(lt: Comparator<T>) {
    forall x, y :: lt(x, y) ==> !lt(y, x)
  }

  /** A strict order in which being neither less nor greater is transitive. */
  ghost predicate StrictWeakOrder<T(!new)>(lt: Comparator<T>) {
    && StrictOrder(lt)
    && (forall x, y, z :: !lt(y, x) && !lt(z, y) ==> !lt(z, x))
  }

  /** No later item is less than an earlier one. */
  ghost predicate Sorted<T>(lt: Comparator<T>, s: seq<T>) {
    forall i, j :: 0 <= i < j < |s| ==> !lt(s[j], s[i])
  }

  /** The same for neighbours only: what `is_sorted` looks at. */
  ghost predicate AdjacentSorted<T>(lt: Comparator<T>, s: seq<T>) {
    forall i :: 0 <= i < |s| - 1 ==> !lt(s[i + 1], s[i])
  }

  lemma SwapRearranges<T>(s: seq<T>, i: nat, j: nat, l: int, r: int)
    requires 0 <= l <= i <= r < |s| && l <= j <= r
    ensures Rearranged(s, Swapped(s, i, j), l, r)
  {
    var t := Swapped(s, i, j);
    var a, b := s[l..r + 1], t[l..r + 1];
    assert b == Swapped(a, i - l, j - l);
    assert multiset(Swapped(a, i - l, j - l)) == multiset(a);
  }

  lemma RearrangedTwice<T>(s: seq<T>, t: seq<T>, u: seq<T>, l: int, r: int)
    requires Rearranged(s, t, l, r) && Rearranged(t, u, l, r)
    ensures Rearranged(s, u, l, r)
  {
  }

  /** A rearrangement of a part is a rearrangement of the whole. */
  lemma RearrangedWithin<T>(s: seq<T>, t: seq<T>, l: int, r: int, a: int, b: int)
    requires Rearranged(s, t, a, b) && 0 <= l <= a <= b + 1 <= r + 1 <= |s|
    ensures Rearranged(s, t, l, r)
  {
    assert s[l..r + 1] == s[..a][l..] + s[a..b + 1] + s[b + 1..][..r - b];
    assert t[l..r + 1] == t[..a][l..] + t[a..b + 1] + t[b + 1..][..r - b];
  }

  /** Whatever is in the rearranged part was there before. */
  lemma RearrangedFrom<T>(s: seq<T>, t: seq<T>, l: int, r: int, k: int) returns (j: int)
    requires Rearranged(s, t, l, r) && l <= k <= r
    ensures l <= j <= r && s[j] == t[k]
  {
    assert t[l..r + 1][k - l] == t[k];
    assert t[k] in multiset(s[l..r + 1]);
    assert t[k] in s[l..r + 1];
    var i :| 0 <= i < r + 1 - l && s[l..r + 1][i] == t[k];
    j := l + i;
  }

  /** After the pivot at `l`, the items up to `m` are less than it and those up to `n` are not. */
  ghost predicate Split<T>(lt: Comparator<T>, s: seq<T>, l: int, m: int, n: int) {
    && 0 <= l <= m <= n < |s|
    && (forall k :: l < k <= m ==> lt(s[k], s[l]))
    && (forall k :: m < k <= n ==> !lt(s[k], s[l]))
  }

  /** The pivot at `m` has the lesser items of `l..r` before it and the others behind it. */
  ghost predicate Parted<T>(lt: Comparator<T>, s: seq<T>, l: int, m: int, r: int) {
    && 0 <= l <= m <= r < |s|
    && (forall k :: l <= k < m ==> lt(s[k], s[m]))
    && (forall k :: m < k <= r ==> !lt(s[k], s[m]))
  }

  /** The comparator of a sorter that was given none. */
  ghost predicate Always<T(!new)>(lt: Comparator<T>) {
    forall x, y :: lt(x, y)
  }

  /** The first item changes places with the middle one, and then with the last one. */
  function MiddleToEnd<T>(s: seq<T>, l: nat, r: nat): seq<T>
    requires l < r < |s|
  {
    Swapped(Swapped(s, l, l + (r - l) / 2 + 1), l, r)
  }

  lemma MiddleToEndIs<T>(s: seq<T>, l: nat, r: nat)
    requires l < r < |s|
    ensures MiddleToEnd(s, l, r) == Swapped(Swapped(s, l, l + (r - l) / 2 + 1), l, r)
  {
  }

  lemma SwapWithItself<T(!new)>(lt: Comparator<T>, s: seq<T>, l: nat, i: nat)
    requires l < |s| && i < |s|
    ensures Swapped(s, i, i) == s
    ensures Always(lt) ==> lt(s[i], s[l])
  {
  }

  lemma SplitStart<T>(lt: Comparator<T>, s: seq<T>, l: int)
    requires 0 <= l < |s|
    ensures Split(lt, s, l, l, l)
  {
  }

  lemma SplitGrows<T>(lt: Comparator<T>, s: seq<T>, l: int, m: int, i: int)
    requires Split(lt, s, l, m, i - 1) && i < |s|
    ensures if lt(s[i], s[l]) then Split(lt, Swapped(s, m + 1, i), l, m + 1, i) else Split(lt, s, l, m, i)
  {
  }

  lemma SplitIsParted<T>(lt: Comparator<T>, s: seq<T>, l: int, m: int, r: int)
    requires Split(lt, s, l, m, r)
    ensures Parted(lt, Swapped(s, l, m), l, m, r)
  {
  }

  /** Item `i` joins the lesser items when it is less than the pivot, and stays behind them otherwise. */
  method PartitionItem<T(!new)>(c: Collection<T>, left: int, middle: int, i: int, lt: Comparator<T>) returns (m: int)
    requires c.Valid() && c.lower <= left <= middle < i <= c.upper
    requires Split(lt, c.View(), left - c.lower, middle - c.lower, i - 1 - c.lower)
    modifies c.storage
    ensures middle <= m <= i && Rearranged(old(c.View()), c.View(), left - c.lower, i - c.lower)
    ensures Split(lt, c.View(), left - c.lower, m - c.lower, i - c.lower)
    ensures Always(lt) && middle == i - 1 ==> m == i && c.View() == old(c.View())
  {
    hide Rearranged, Split, Swapped, Always, Collection.View;
    ghost var v, l, n := c.View(), left - c.lower, i - c.lower;
    SplitGrows(lt, v, l, middle - c.lower, n);
    SwapWithItself(lt, v, l, n);
    m := middle;
    var x := c.Item(i);
    var pivot := c.Item(left);
    if lt(x, pivot) {
      m := m + 1;
      SwapRearranges(v, m - c.lower, n, l, n);
      c.Swap(m, i);
    } else {
      NothingRearranged(v, l, n);
    }
  }

  /** The pivot goes between the items that are less and the others. */
  method PivotBetween<T(!new)>(c: Collection<T>, left: int, middle: int, right: int, lt: Comparator<T>, ghost s: seq<T>)
    requires c.Valid() && c.lower <= left <= middle <= right <= c.upper
    requires Rearranged(s, c.View(), left - c.lower, right - c.lower)
    requires Split(lt, c.View(), left - c.lower, middle - c.lower, right - c.lower)
    modifies c.storage
    ensures Rearranged(s, c.View(), left - c.lower, right - c.lower)
    ensures Parted(lt, c.View(), left - c.lower, middle - c.lower, right - c.lower)
    ensures c.View() == Swapped(old(c.View()), left - c.lower, middle - c.lower)
  {
    hide Rearranged, Split, Parted, Swapped, Collection.View;
    ghost var t, l, m, r := c.View(), left - c.lower, middle - c.lower, right - c.lower;
    SwapRearranges(t, l, m, l, r);
    RearrangedTwice(s, t, Swapped(t, l, m), l, r);
    SplitIsParted(lt, t, l, m, r);
    c.Swap(left, middle);
  }

  /** One pass of the partition: the middle item becomes the pivot and ends between the two parts. */
  method Partition<T(!new)>(c: Collection<T>, left: int, right: int, lt: Comparator<T>) returns (middle: int)
    requires c.Valid() && c.lower <= left < right <= c.upper
    modifies c.storage
    ensures left <= middle <= right
    ensures Rearranged(old(c.View()), c.View(), left - c.lower, right - c.lower)
    ensures Parted(lt, c.View(), left - c.lower, middle - c.lower, right - c.lower)
    ensures Always(lt) ==>
      middle == right && c.View() == MiddleToEnd(old(c.View()), left - c.lower, right - c.lower)
  {
    hide Rearranged, Split, Parted, Swapped, MiddleToEnd, Always, Collection.View;
    ghost var s, l, r := c.View(), left - c.lower, right - c.lower;
    var i := left + (right - left) / 2 + 1;
    SwapRearranges(s, l, i - c.lower, l, r);
    MiddleToEndIs(s, l, r);
    c.Swap(left, i);
    middle := left;
    i := left + 1;
    ghost var started := c.View();
    SplitStart(lt, started, l);
    while i <= right
      invariant left <= middle < i <= right + 1
      invariant Rearranged(s, c.View(), l, r)
      invariant Split(lt, c.View(), l, middle - c.lower, i - 1 - c.lower)
      invariant Always(lt) ==> middle == i - 1 && c.View() == started
    {
      ghost var v := c.View();
      middle := PartitionItem(c, left, middle, i, lt);
      RearrangedWithin(v, c.View(), l, r, l, i - c.lower);
      RearrangedTwice(s, v, c.View(), l, r);
      i := i + 1;
    }
    PivotBetween(c, left, middle, right, lt, s);
  }

  /** After both parts are rearranged, the items before the pivot are still less than it and the others not. */
  lemma PartedStays<T>(lt: Comparator<T>, s: seq<T>, t: seq<T>, u: seq<T>, l: int, m: int, r: int)
    requires Parted(lt, s, l, m, r)
    requires Rearranged(s, t, l, m - 1) && Rearranged(t, u, m + 1, r)
    ensures Parted(lt, u, l, m, r) && u[m] == s[m] && u[l..m] == t[l..m]
  {
    assert t[m] == t[m..][0] == s[m..][0] == s[m];
    assert u[m] == u[..m + 1][m] == t[..m + 1][m] == t[m];
    assert u[l..m] == u[..m + 1][l..m] == t[..m + 1][l..m] == t[l..m];
    forall k | l <= k < m ensures lt(u[k], u[m]) {
      var j := RearrangedFrom(s, t, l, m - 1, k);
      assert u[k] == u[l..m][k - l] == t[l..m][k - l] == t[k];
    }
    forall k | m < k <= r ensures !lt(u[k], u[m]) {
      var j := RearrangedFrom(t, u, m + 1, r, k);
      assert t[j] == t[m..][j - m] == s[m..][j - m] == s[j];
    }
  }

  lemma SortedFromParts<T(!new)>(lt: Comparator<T>, s: seq<T>, l: int, m: int, r: int)
    requires StrictOrder(lt) && Parted(lt, s, l, m, r)
    requires Sorted(lt, s[l..m]) && Sorted(lt, s[m + 1..r + 1])
    ensures Sorted(lt, s[l..r + 1])
  {
    forall i, j | l <= i < j <= r ensures !lt(s[j], s[i]) {
      if j < m {
        assert !lt(s[l..m][j - l], s[l..m][i - l]);
      } else if m < i {
        assert !lt(s[m + 1..r + 1][j - m - 1], s[m + 1..r + 1][i - m - 1]);
      }
    }
  }

  /** For neighbours alone, asymmetry is enough. */
  lemma AdjacentFromParts<T(!new)>(lt: Comparator<T>, s: seq<T>, l: int, m: int, r: int)
    requires Asymmetric(lt) && Parted(lt, s, l, m, r)
    requires AdjacentSorted(lt, s[l..m]) && AdjacentSorted(lt, s[m + 1..r + 1])
    ensures AdjacentSorted(lt, s[l..r + 1])
  {
    forall i | l <= i < r ensures !lt(s[i + 1], s[i]) {
      if i + 1 < m {
        assert !lt(s[l..m][i - l + 1], s[l..m][i - l]);
      } else if m < i {
        assert !lt(s[m + 1..r + 1][i - m], s[m + 1..r + 1][i - m - 1]);
      }
    }
  }

  /** What quicksort makes of `l..r` when the comparator always answers true. */
  function Shuffled<T>(s: seq<T>, l: nat, r: int): (t: seq<T>)
    requires r < |s|
    ensures |t| == |s|
    decreases r - l
  {
    if l < r then Shuffled(MiddleToEnd(s, l, r), l, r - 1) else s
  }

  method QuickSortRegion<T(!new)>(c: Collection<T>, left: int, right: int, lt: Comparator<T>)
    requires c.Valid() && c.lower <= left <= right + 1 <= c.upper + 1
    modifies c.storage
    ensures Rearranged(old(c.View()), c.View(), left - c.lower, right - c.lower)
    ensures Asymmetric(lt) ==> AdjacentSorted(lt, c.View()[left - c.lower..right - c.lower + 1])
    ensures StrictOrder(lt) ==> Sorted(lt, c.View()[left - c.lower..right - c.lower + 1])
    ensures Always(lt) ==> c.View() == Shuffled(old(c.View()), left - c.lower, right - c.lower)
    decreases right - left
  {
    hide Rearranged, Parted, Collection.View, StrictOrder, Asymmetric, Always, MiddleToEnd, Sorted, AdjacentSorted;
    ghost var s, l, r := c.View(), left - c.lower, right - c.lower;
    if left < right {
      var middle := Partition(c, left, right, lt);
      ghost var m, t := middle - c.lower, c.View();
      QuickSortRegion(c, left, middle - 1, lt);
      ghost var u := c.View();
      QuickSortRegion(c, middle + 1, right, lt);
      ghost var v := c.View();
      PartedStays(lt, t, u, v, l, m, r);
      RearrangedWithin(t, u, l, r, l, m - 1);
      RearrangedWithin(u, v, l, r, m + 1, r);
      RearrangedTwice(s, t, u, l, r);
      RearrangedTwice(s, u, v, l, r);
      if Asymmetric(lt) {
        AdjacentFromParts(lt, v, l, m, r);
      }
      if StrictOrder(lt) {
        SortedFromParts(lt, v, l, m, r);
      }
    } else {
      NothingRearranged(s, l, r);
      ShortIsSorted(lt, s[l..r + 1]);
    }
  }

  lemma ShortIsSorted<T(!new)>(lt: Comparator<T>, s: seq<T>)
    requires |s| <= 1
    ensures Sorted(lt, s) && AdjacentSorted(lt, s)
  {
  }

  lemma NothingRearranged<T>(s: seq<T>, l: int, r: int)
    requires 0 <= l <= r + 1 <= |s|
    ensures Rearranged(s, s, l, r)
  {
  }

  lemma RearrangedWhole<T>(s: seq<T>, t: seq<T>)
    requires Rearranged(s, t, 0, |s| - 1)
    ensures multiset(s) == multiset(t) && t[0..|s|] == t
  {
    assert s[0..|s|] == s && t[0..|s|] == t;
  }

  method QuickSort<T(!new)>(c: Collection<T>, lt: Comparator<T>)
    requires c.Valid()
    modifies c.storage
    ensures multiset(c.View()) == multiset(old(c.View()))
    ensures Asymmetric(lt) ==> AdjacentSorted(lt, c.View())
    ensures StrictOrder(lt) ==> Sorted(lt, c.View())
    ensures Always(lt) ==> c.View() == Shuffled(old(c.View()), 0, |old(c.View())| - 1)
  {
    hide StrictOrder, Asymmetric, Always, Sorted, AdjacentSorted, Rearranged, Shuffled, Collection.View;
    ghost var s := c.View();
    QuickSortRegion(c, c.lower, c.upper, lt);
    ghost var t := c.View();
    RearrangedWhole(s, t);
  }

  /** Compares neighbours only, and stops at the first pair out of order. */
  method IsSorted<T>(c: Collection<T>, lt: Comparator<T>) returns (r: bool)
    requires c.Valid()
    ensures r <==> AdjacentSorted(lt, c.View())
  {
    r := true;
    var i := c.lower;
    if c.upper > i {
      var elt1 := c.Item(i);
      while r && i < c.upper
        invariant c.lower <= i <= c.upper && elt1 == c.View()[i - c.lower]
        invariant r <==> forall k :: 0 <= k < i - c.lower ==> !lt(c.View()[k + 1], c.View()[k])
      {
        i := i + 1;
        var elt2 := c.Item(i);
        r := !lt(elt2, elt1);
        elt1 := elt2;
      }
    }
  }

  /**
   Leaves a collection alone when its neighbours are in order, and sorts it otherwise. The promised test of
   neighbours holds afterwards for every asymmetric comparator; all pairs are in order, for a strict order, unless
   the collection was left alone with some pair out of order.
   */
  method Sort<T(!new)>(c: Collection<T>, lt: Comparator<T>)
    requires c.Valid()
    modifies c.storage
    ensures multiset(c.View()) == multiset(old(c.View()))
    ensures AdjacentSorted(lt, old(c.View())) ==> c.View() == old(c.View())
    ensures Asymmetric(lt) ==> AdjacentSorted(lt, c.View())
    ensures StrictOrder(lt) ==>
      (Sorted(lt, c.View()) <==> !AdjacentSorted(lt, old(c.View())) || Sorted(lt, old(c.View())))
    ensures StrictWeakOrder(lt) ==> Sorted(lt, c.View())
    ensures Always(lt) ==> c.View() == Shuffled(old(c.View()), 0, |old(c.View())| - 1)
  {
    hide StrictOrder, Asymmetric, Always, Shuffled;
    var sorted := IsSorted(c, lt);
    if !sorted {
      QuickSort(c, lt);
    } else {
      if StrictWeakOrder(lt) {
        AdjacentIsSorted(lt, c.View());
      }
      if Always(lt) {
        DefaultIsNeverSorted(lt, c.View());
        DefaultKeepsThree(c.View());
      }
    }
  }

  /** In a strict weak order, looking at neighbours is as good as looking at all pairs. */
  lemma AdjacentIsSorted<T(!new)>(lt: Comparator<T>, s: seq<T>)
    requires StrictWeakOrder(lt)
    ensures AdjacentSorted(lt, s) <==> Sorted(lt, s)
  {
    if AdjacentSorted(lt, s) {
      forall i, j | 0 <= i < j < |s| ensures !lt(s[j], s[i]) {
        AdjacentReaches(lt, s, i, j);
      }
    }
  }

  lemma {:induction false} AdjacentReaches<T(!new)>(lt: Comparator<T>, s: seq<T>, i: nat, j: nat)
    requires StrictWeakOrder(lt) && AdjacentSorted(lt, s) && i < j < |s|
    ensures !lt(s[j], s[i])
  {
    if i + 1 < j {
      AdjacentReaches(lt, s, i, j - 1);
    }
    assert !lt(s[j - 1 + 1], s[j - 1]);
  }

  /**
   Exactly the strict weak orders are the comparators for which neighbours in order always mean all pairs in
   order, besides the asymmetry that makes neighbours end in order: for any other, `sort` either cannot keep its
   promise on two items or accepts three items of which the last is less than the first.
   */
  lemma WeakIsNeeded<T(!new)>(lt: Comparator<T>)
    ensures StrictWeakOrder(lt) <==> Asymmetric(lt) && forall s: seq<T> :: AdjacentSorted(lt, s) ==> Sorted(lt, s)
  {
    if StrictWeakOrder(lt) {
      forall s: seq<T> | AdjacentSorted(lt, s) ensures Sorted(lt, s) {
        AdjacentIsSorted(lt, s);
      }
    } else if Asymmetric(lt) && forall s: seq<T> :: AdjacentSorted(lt, s) ==> Sorted(lt, s) {
      forall x, y, z | !lt(y, x) && !lt(z, y) ensures !lt(z, x) {
        var s := [x, y, z];
        assert AdjacentSorted(lt, s);
        assert !lt(s[2], s[0]);
      }
    }
  }

  /** Without asymmetry some two items have no order that passes the test of neighbours. */
  lemma AsymmetryIsNeeded<T(!new)>(lt: Comparator<T>)
    ensures Asymmetric(lt) <==>
      forall s: seq<T> :: |s| == 2 ==> AdjacentSorted(lt, s) || AdjacentSorted(lt, Swapped(s, 0, 1))
  {
    if Asymmetric(lt) {
      forall s: seq<T> | |s| == 2 ensures AdjacentSorted(lt, s) || AdjacentSorted(lt, Swapped(s, 0, 1)) {
        PairInOrder(lt, s);
        PairInOrder(lt, Swapped(s, 0, 1));
      }
    } else {
      var x, y :| lt(x, y) && lt(y, x);
      PairInOrder(lt, [x, y]);
      PairInOrder(lt, Swapped([x, y], 0, 1));
      assert !AdjacentSorted(lt, [x, y]) && !AdjacentSorted(lt, Swapped([x, y], 0, 1));
    }
  }

  lemma PairInOrder<T>(lt: Comparator<T>, s: seq<T>)
    requires |s| == 2
    ensures AdjacentSorted(lt, s) <==> !lt(s[1], s[0])
  {
    assert AdjacentSorted(lt, s) ==> !lt(s[0 + 1], s[0]);
  }

  /**
   A merely partial order is not enough for that: here the neighbours look sorted, so `sort` does nothing,
   yet the last item is less than the first.
   */
  lemma PartialOrderIsNotEnough()
    ensures exists lt: Comparator<int>, s: seq<int> :: StrictOrder(lt) && AdjacentSorted(lt, s) && !Sorted(lt, s)
  {
    var lt: Comparator<int> := (x, y) => x == 3 && y == 1;
    var s := [1, 2, 3];
    assert lt(s[2], s[0]);
    assert StrictOrder(lt) && AdjacentSorted(lt, s) && !Sorted(lt, s);
  }

  /** The default comparator finds nothing sorted except collections of fewer than two items. */
  lemma DefaultIsNeverSorted<T(!new)>(lt: Comparator<T>, s: seq<T>)
    requires Always(lt)
    ensures AdjacentSorted(lt, s) <==> |s| < 2
  {
    assert |s| >= 2 ==> lt(s[1], s[0]);
  }

  /** With the default comparator, the items of a collection of up to three stay where they are. */
  lemma DefaultKeepsThree<T>(s: seq<T>)
    requires |s| <= 3
    ensures Shuffled(s, 0, |s| - 1) == s
  {
    ShuffledShort(s, |s| - 1);
  }

  lemma {:induction false} ShuffledShort<T>(s: seq<T>, r: int)
    requires r < |s| && r <= 2
    ensures Shuffled(s, 0, r) == s
    decreases r
  {
  }

  /**
   From four items on, the item just behind the middle ends up last, although the documentation says that
   the default comparator does not sort.
   */
  lemma DefaultMovesMiddle<T>(s: seq<T>)
    requires |s| >= 4
    ensures (|s| - 1) / 2 + 1 < |s| - 1
    ensures Shuffled(s, 0, |s| - 1)[|s| - 1] == s[(|s| - 1) / 2 + 1]
  {
    hide MiddleToEnd, Shuffled;
    var r := |s| - 1;
    var t := MiddleToEnd(s, 0, r);
    ShuffledStep(s, 0, r);
    MiddleIsLast(s, r);
    OutsideStays(t, 0, r - 1, r);
  }

  /** So that comparator keeps pairwise different items exactly when there are at most three. */
  lemma DefaultKeepsExactly<T(!new)>(s: seq<T>)
    requires forall i, j :: 0 <= i < j < |s| ==> s[i] != s[j]
    ensures Shuffled(s, 0, |s| - 1) == s <==> |s| <= 3
  {
    if |s| <= 3 {
      DefaultKeepsThree(s);
    } else {
      DefaultMovesMiddle(s);
    }
  }

  lemma OutsideStays<T>(s: seq<T>, l: nat, r: int, k: nat)
    requires r < k < |s|
    ensures Shuffled(s, l, r)[k] == s[k]
  {
    ShuffledInside(s, l, r);
  }

  lemma ShuffledStep<T>(s: seq<T>, l: nat, r: nat)
    requires l < r < |s|
    ensures Shuffled(s, l, r) == Shuffled(MiddleToEnd(s, l, r), l, r - 1)
  {
  }

  lemma MiddleIsLast<T>(s: seq<T>, r: nat)
    requires 3 <= r < |s|
    ensures r / 2 + 1 < r && MiddleToEnd(s, 0, r)[r] == s[r / 2 + 1]
  {
  }

  lemma {:induction false} ShuffledInside<T>(s: seq<T>, l: nat, r: int)
    requires r < |s|
    ensures forall k :: 0 <= k < |s| && (k < l || r < k) ==> Shuffled(s, l, r)[k] == s[k]
    decreases r - l
  {
    if l < r {
      ShuffledInside(MiddleToEnd(s, l, r), l, r - 1);
    }
  }
}
