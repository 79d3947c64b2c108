/** Every run of ring array operations computes the same run on an indexed sequence. */
module RingRuns {
  import opened RingArrays

  /** The abstract value: the items and the index of the first one. */
  datatype Indexed<T> = Indexed(lower: int, items: seq<T>) {
    predicate Has(i: int) {
      lower <= i < lower + |items|
    }
  }

  datatype Call<T> =
    | WithCapacity(needed: nat, low: int)
    | AddFirst(x: T)
    | AddLast(x: T)
    | RemoveFirst
    | Remove(i: int)
    | Put(x: T, i: int)
    | ClearCount

  /** What a call means. A call whose index is not there, or that finds the ring empty, is skipped. */
  function Effect<T>(s: Indexed<T>, call: Call<T>): Indexed<T> {
    match call
    case WithCapacity(_, low) => Indexed(low, [])
    case AddFirst(x) => s.(items := [x] + s.items)
    case AddLast(x) => s.(items := s.items + [x])
    case RemoveFirst => if s.items == [] then s else Indexed(s.lower + 1, s.items[1..])
    case Remove(i) => if s.Has(i) then s.(items := s.items[..i - s.lower] + s.items[i - s.lower + 1..]) else s
    case Put(x, i) => if s.Has(i) then s.(items := s.items[i - s.lower := x]) else s
    case ClearCount => s.(items := [])
  }

  function Effects<T>(s: Indexed<T>, calls: seq<Call<T>>): Indexed<T> {
    if calls == [] then s else Effect(Effects(s, calls[..|calls| - 1]), calls[|calls| - 1])
  }

  ghost function Value<T>(r: RingArray<T>): Indexed<T>
    requires r.Valid()
    reads r, r.storage
  {
    Indexed(r.lower, r.View())
  }

  method Execute<T>(r: RingArray<T>, call: Call<T>)
    requires r.Valid()
    modifies r, r.storage
    ensures r.Valid() && (r.storage == old(r.storage) || fresh(r.storage))
    ensures Value(r) == Effect(old(Value(r)), call)
  {
    match call {
      case WithCapacity(n, low) => r.WithCapacity(n, low);
      case AddFirst(x) => r.AddFirst(x);
      case AddLast(x) => r.AddLast(x);
      case RemoveFirst => if r.lower <= r.upper { r.RemoveFirst(); }
      case Remove(i) => if r.lower <= i <= r.upper { r.Remove(i); }
      case Put(x, i) => if r.lower <= i <= r.upper { r.Put(x, i); }
      case ClearCount => r.ClearCount();
    }
  }

  method Run<T>(r: RingArray<T>, calls: seq<Call<T>>)
    requires r.Valid()
    modifies r, r.storage
    ensures r.Valid() && (r.storage == old(r.storage) || fresh(r.storage))
    ensures Value(r) == Effects(old(Value(r)), calls)
  {
    hide Effect, Value;
    for n := 0 to |calls|
      invariant r.Valid() && (r.storage == old(r.storage) || fresh(r.storage))
      invariant Value(r) == Effects(old(Value(r)), calls[..n])
    {
      Execute(r, calls[n]);
      assert calls[..n + 1][..n] == calls[..n];
    }
    assert calls[..|calls|] == calls;
  }
}
