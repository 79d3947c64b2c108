/** HASHED_SET: the operations that differ from the dictionary's, on the same table with no items. */
module HashedSets {
  import opened HashTableSize
  import opened Int32
  import opened KeyedMaps
  import opened HashTables

  type HashedSet<E(==,!new)> = HashTable<E, ()>

  /** Set insertion under equality: an element equal to a stored one changes nothing. */
  ghost function Include<E(!new)>(h: Hashing<E>, s: set<E>, e: E): set<E> {
    if HasEqual(h, s, e) then s else s + {e}
  }

  /**
   The `count` clauses that the set class promises for `add` and for `fast_add`: one more element exactly
   when no equal element was there.
   */
  ghost predicate CountsAsPromised<E(!new)>(h: Hashing<E>, before: set<E>, after: set<E>, e: E) {
    |after| == |before| + (if HasEqual(h, before, e) then 0 else 1)
  }

  /** `add` keeps the elements pairwise unequal and answers `has` as a mathematical set would. */
  lemma IncludeIsInsertion<E(!new)>(h: Hashing<E>, s: set<E>, e: E, q: E)
    requires h.Lawful() && DistinctKeys(h, s)
    ensures DistinctKeys(h, Include(h, s, e))
    ensures HasEqual(h, Include(h, s, e), q) <==> HasEqual(h, s, q) || h.Same(e, q)
    ensures CountsAsPromised(h, s, Include(h, s, e), e)
  {
  }

  /** `fast_add` keeps the promise exactly when identity and equality agree about the new element. */
  lemma FastAddPromise<E(!new)>(h: Hashing<E>, s: set<E>, e: E)
    ensures CountsAsPromised(h, s, s + {e}, e) <==> (e in s || !HasEqual(h, s, e))
  {
    assert e in s ==> s + {e} == s && h.Same(e, e);
  }

  /** An element that is equal to a stored one without being it: `fast_add` breaks its promise. */
  lemma FastAddPromiseFails()
    ensures exists h: Hashing<int>, s: set<int>, e: int ::
      h.Lawful() && DistinctKeys(h, s) && !CountsAsPromised(h, s, s + {e}, e)
  {
    var h := Hashing((x: int) => 0, (x: int, y: int) => true);
    assert h.Same(1, 2);
    FastAddPromise(h, {1}, 2);
    assert h.Lawful() && DistinctKeys(h, {1}) && !CountsAsPromised(h, {1}, {1} + {2}, 2);
  }

  /** The table is usable as a set with the given pool. */
  ghost predicate Ready<E(!new)>(s: HashedSet<E>)
    reads s, s.nodes, s.buckets, s.freeNodes, (if s.freeNodes == null then [] else s.freeNodes.free)
  {
    s.Valid() && s.freeNodes.Valid()
  }

  /** `make`: empties a set that already has a pool, otherwise gives it the pool of its type. */
  method Make<E(==,!new)>(s: HashedSet<E>, pool: Pool<E, ()>, void: E)
    requires s.hashing.Lawful()
    requires s.freeNodes != null ==> Ready(s)
    modifies s, s.buckets, s.nodes, s.freeNodes
    ensures s.Valid() && s.Keys() == {} && s.count == 0
    ensures s.freeNodes == if old(s.freeNodes) == null then pool else old(s.freeNodes)
    ensures old(s.freeNodes) != null ==> s.freeNodes.Valid() && s.Confined()
    ensures old(s.freeNodes) == null ==> fresh(s.buckets) && s.nodes == {}
    ensures s.generation == old(s.generation) + if old(s.freeNodes) == null then 1 else 2
    ensures s.capacity == if old(s.freeNodes) == null then DEFAULT_SIZE else old(s.capacity)
    ensures s.capacity == DEFAULT_SIZE <==> old(s.freeNodes == null || s.capacity == DEFAULT_SIZE)
  {
    if s.freeNodes != null {
      s.ClearCount((), void);
    } else {
      assert CapacityAt(3) == DEFAULT_SIZE;
      s.CreateWithCapacity(DEFAULT_SIZE, pool);
    }
    s.generation := s.generation + 1;
  }

  /**
   `with_capacity`: empty buckets for the entry 1.5 times above `mediumSize`. The nodes of a set that was in use
   are neither free nor stored any more: the pool's account is short by exactly the old count.
   */
  method WithCapacity<E(==,!new)>(s: HashedSet<E>, mediumSize: int32, pool: Pool<E, ()>)
    requires 0 <= mediumSize && s.hashing.Lawful()
    modifies s
    ensures s.Valid() && s.Keys() == {} && s.count == 0
    ensures mediumSize <= s.capacity == PrimeCapacity(mediumSize) && fresh(s.buckets) && s.nodes == {}
    ensures s.freeNodes == if old(s.freeNodes) == null then pool else old(s.freeNodes)
    ensures s.generation == old(s.generation) + 1
    ensures old(s.freeNodes) != null ==>
      s.freeNodes.created - |s.freeNodes.free| - s.count ==
        old(s.freeNodes.created - |s.freeNodes.free| - s.count) + old(s.count)
  {
    s.CreateWithCapacity(PrimeCapacity(mediumSize), pool);
    s.generation := s.generation + 1;
  }

  /** A set in use for which `make` breaks its promise: the capacity it was given stays. */
  method MakePromiseFails<E(==,!new)>(h: Hashing<E>, pool: Pool<E, ()>, void: E) returns (s: HashedSet<E>)
    requires h.Lawful() && pool.Valid()
    modifies pool
    ensures fresh(s) && s.Valid() && s.Keys() == {} && s.capacity == 97 != DEFAULT_SIZE
  {
    hide HashTable.Linked, HashTable.Indexed, HashTable.LoadBounded, HashTable.CursorOk, Pool.Valid, Hashing.Lawful;
    s := new HashTable(h);
    WithCapacity(s, DEFAULT_SIZE, pool);
    GrowthOfDefault();
    Make(s, pool, void);
  }

  lemma GrowthOfDefault()
    ensures PrimeCapacity(DEFAULT_SIZE) == 97
  {
    assert CapacityAt(3) == 53 && CapacityAt(4) == 97;
    StepIntoGap(DEFAULT_SIZE, 3);
  }

  /** `add`: stores the element unless an equal one is there. */
  method Add<E(==,!new)>(s: HashedSet<E>, e: E)
    requires Ready(s)
    modifies s, s.buckets, s.nodes, s.freeNodes, s.freeNodes.free
    ensures Ready(s) && s.Confined()
    ensures s.Keys() == Include(s.hashing, old(s.Keys()), e)
    ensures if exists x :: x in old(s.Keys()) && (x == e || s.hashing.isEqual(x, e))
            then s.Keys() == old(s.Keys()) && s.capacity == old(s.capacity)
            else s.Keys() == old(s.Keys()) + {e} && AfterOneMore(old(s.capacity), old(s.count), s.capacity)
    ensures s.generation == old(s.generation) + 1 && s.cacheUser == -1
  {
    hide HashTable.Linked, HashTable.Indexed, HashTable.LoadBounded, HashTable.View, Hashing.Lawful, Pool.Valid;
    hide ShouldIncreaseCapacity, PrimeCapacity, AfterOneMore, HashTable.WithRoom, HashTable.AtFront;
    hide HashTable.Listing, JoinsBucket;
    s.cacheUser := -1;
    var node := s.Find(e);
    if node == null {
      s.Insert((), e);
    } else {
      s.ViewOf(node);
    }
    s.generation := s.generation + 1;
  }

  /** `fast_add`: stores the element unless this very object is there. */
  method FastAdd<E(==,!new)>(s: HashedSet<E>, e: E)
    requires Ready(s)
    modifies s, s.buckets, s.nodes, s.freeNodes, s.freeNodes.free
    ensures Ready(s) && s.Confined()
    ensures s.Keys() == old(s.Keys()) + {e}
    ensures if e in old(s.Keys()) then s.capacity == old(s.capacity)
            else AfterOneMore(old(s.capacity), old(s.count), s.capacity)
    ensures s.generation == old(s.generation) + 1 && s.cacheUser == -1
  {
    hide HashTable.Linked, HashTable.Indexed, HashTable.LoadBounded, HashTable.View, Hashing.Lawful, Pool.Valid;
    hide ShouldIncreaseCapacity, PrimeCapacity, AfterOneMore, HashTable.WithRoom, HashTable.AtFront;
    hide HashTable.Listing, JoinsBucket;
    s.cacheUser := -1;
    var node := s.FastFind(e);
    if node == null {
      s.Insert((), e);
    }
    s.generation := s.generation + 1;
  }
}
