/**
 The registry of free lists: a dictionary, itself hashed and itself with a free list, that holds one entry per
 generating type and is built on the first call.
 */
module Registry {
  import opened HashTableSize
  import opened Int32
  import opened KeyedMaps
  import opened HashTables

  /** A free list as the registry holds it: its own, or the one of another type. `T` are the type names. */
  datatype PoolRef<T(==,!new), K(!new), V> = Own(own: Pool<T, PoolRef<T, K, V>>) | For(pool: Pool<K, V>)

  /** A dictionary of any type: of the registry's own type, or of another. */
  datatype Dictionary<T(==,!new), K(==,!new), V> =
    | OfRegistryType(own: HashTable<T, PoolRef<T, K, V>>)
    | OfType(table: HashTable<K, V>)

  ghost function Head<T(!new), K(!new), V>(d: Dictionary<T, K, V>): object {
    if d.OfType? then d.table else d.own
  }

  /** The free list that a dictionary uses. */
  ghost function FreeListOf<T(!new), K(!new), V>(d: Dictionary<T, K, V>): Option<PoolRef<T, K, V>>
    reads Head(d)
  {
    match d
    case OfRegistryType(t) => if t.freeNodes == null then None else Some(Own(t.freeNodes))
    case OfType(t) => if t.freeNodes == null then None else Some(For(t.freeNodes))
  }

  /** A well-formed dictionary with nothing of its own in `f`, nor of its free list unless that is the registry's. */
  ghost predicate Apart<T(!new), K(!new), V>(d: Dictionary<T, K, V>, f: set<object>)
    reads if d.OfType? then {d.table, d.table.buckets} else {d.own, d.own.buckets}
    reads if d.OfType? then d.table.nodes else d.own.nodes
    reads if d.OfType? && d.table.freeNodes != null then {d.table.freeNodes} else {}
    reads if d.OfType? && d.table.freeNodes != null then FreeNodesIn(d.table.freeNodes) else {}
  {
    match d
    case OfRegistryType(t) => t !in f && t.buckets !in f && t.Valid() && forall n :: n in t.nodes ==> n !in f
    case OfType(t) =>
      t !in f && t.buckets !in f && t.Valid() && PoolApart(t.freeNodes, f) && forall n :: n in t.nodes ==> n !in f
  }

  ghost predicate IsEmpty<T(!new), K(!new), V>(d: Dictionary<T, K, V>)
    reads Head(d)
  {
    match d
    case OfRegistryType(t) => t.nodes == {} && t.nodeOf == map[]
    case OfType(t) => t.nodes == {} && t.nodeOf == map[]
  }

  /** The dictionary stands for the same map as before. */
  twostate predicate Kept<T(!new), K(!new), V>(d: Dictionary<T, K, V>)
    reads if d.OfType? then {d.table} else {d.own}
    reads if d.OfType? then d.table.nodes else d.own.nodes
  {
    if d.OfType? then ValueOf(d.table) == old(ValueOf(d.table)) else ValueOf(d.own) == old(ValueOf(d.own))
  }

  ghost function FreeNodesIn<K(!new), V>(p: Pool<K, V>): set<Node<K, V>>
    reads p
  {
    set n | n in p.free
  }

  ghost predicate PoolApart<K(!new), V>(p: Pool<K, V>, f: set<object>)
    reads p, FreeNodesIn(p)
  {
    p.Valid() && p !in f && forall n :: n in p.free ==> n !in f
  }

  /** The dictionary is well formed and so is its free list: every operation can be called on it. */
  ghost predicate Usable<T(!new), K(!new), V>(d: Dictionary<T, K, V>)
    reads if d.OfType? then Around(d.table) else Around(d.own)
  {
    match d
    case OfRegistryType(t) => t.Valid() && t.freeNodes.Valid()
    case OfType(t) => t.Valid() && t.freeNodes.Valid()
  }

  ghost function Around<A(!new), B>(t: HashTable<A, B>): set<object>
    reads t, if t.freeNodes == null then {} else {t.freeNodes}
  {
    {t, t.buckets} + (set n | n in t.nodes) +
    if t.freeNodes == null then {} else {t.freeNodes as object} + (set n | n in FreeNodesIn(t.freeNodes))
  }

  method EmptyTable<A(==,!new), B>(pool: Pool<A, B>, h: Hashing<A>, newCapacity: int32) returns (t: HashTable<A, B>)
    requires IsTableEntry(newCapacity) && h.Lawful()
    ensures fresh(t) && fresh(t.buckets) && t.nodes == {} && t.nodeOf == map[] && t.Valid()
    ensures t.hashing == h && t.capacity == newCapacity && t.freeNodes == pool
  {
    hide HashTable.Valid, Pool.Valid, Hashing.Lawful, IsTableEntry;
    t := new HashTable<A, B>(h);
    t.CreateWithCapacity(newCapacity, pool);
  }

  class Registry<T(==,!new), K(==,!new), V> {
    /** How type names are hashed and compared. */
    const hashing: Hashing<T>
    /** The name of the registry's own type. */
    const ownType: T
    /** Null until the first call. */
    var table: HashTable?<T, PoolRef<T, K, V>>

    ghost function Footprint(): set<object>
      reads this, table, if table == null then {} else {table.freeNodes}
    {
      {this} + if table == null then {} else Parts(table)
    }

    /** The registry's table, its buckets, its nodes and its own free list. */
    static ghost function Parts(t: HashTable<T, PoolRef<T, K, V>>): set<object>
      reads t, t.freeNodes
    {
      {t, t.buckets} + (set n | n in t.nodes) + if t.freeNodes == null then {} else FreeParts(t.freeNodes)
    }

    static ghost function FreeParts(p: Pool<T, PoolRef<T, K, V>>): set<object>
      reads p
    {
      (set n | n in p.free) + {p as object}
    }

    ghost predicate Valid()
      reads Footprint()
    {
      && hashing.Lawful()
      && (forall x, y :: hashing.isEqual(x, y) ==> x == y)
      && (table != null ==>
            && table.hashing == hashing && table.Valid() && table.freeNodes.Valid()
            && ownType in table.View() && table.View()[ownType] == Own(table.freeNodes)
            && OnePoolPerType(table.View())
            && forall t :: t in table.View() && table.View()[t].Own? ==> t == ownType)
    }

    /** Different types have different free lists, and only the registry's own type has the registry's. */
    static ghost predicate OnePoolPerType(m: map<T, PoolRef<T, K, V>>) {
      forall t, u :: t in m && u in m && m[t] == m[u] ==> t == u
    }

    /** The abstract value: the free list of each type that has one. */
    ghost function View(): map<T, PoolRef<T, K, V>>
      requires Valid()
      reads Footprint()
    {
      if table == null then map[] else table.View()
    }

    constructor (h: Hashing<T>, ownType: T)
      requires h.Lawful() && forall x, y :: h.isEqual(x, y) ==> x == y
      ensures Valid() && PoolsApart() && View() == map[] && fresh(Footprint())
      ensures hashing == h && this.ownType == ownType
    {
      hashing, this.ownType, table := h, ownType, null;
    }

    /** What belongs to the registry now belonged to it before, or is new. */
    twostate predicate OnlyGrows()
      reads Footprint()
    {
      forall o :: o in Footprint() ==> o in old(Footprint()) || fresh(o)
    }

    /** `special_common_dictionary` and the entry for the registry's own type. */
    static method Bootstrap(h: Hashing<T>, own: T) returns (d: HashTable<T, PoolRef<T, K, V>>)
      requires h.Lawful()
      ensures d.hashing == h && d.Valid() && d.freeNodes.Valid() && d.View() == map[own := Own(d.freeNodes)]
      ensures fresh(d) && fresh(d.buckets) && fresh(d.freeNodes)
      ensures (forall n :: n in d.nodes ==> fresh(n)) && forall n :: n in d.freeNodes.free ==> fresh(n)
    {
      hide HashTable.Linked, HashTable.Indexed, HashTable.LoadBounded, HashTable.CursorOk, Pool.Valid, Hashing.Lawful;
      var fn := new Pool<T, PoolRef<T, K, V>>();
      d := new HashTable<T, PoolRef<T, K, V>>(h);
      assert CapacityAt(3) == DEFAULT_SIZE;
      d.CreateWithCapacity(DEFAULT_SIZE, fn);
      assert d.nodes == {} && fn.free == [];
      d.Add(Own(fn), own);
    }

    /** The once function: the first call builds the registry and enters its own free list. */
    method CommonFreeNodes() returns (t: HashTable<T, PoolRef<T, K, V>>)
      requires Valid()
      modifies `table
      ensures Valid() && table == t && OnlyGrows()
      ensures ownType in View() && View()[ownType].Own?
      ensures View() == if old(table) == null then map[ownType := View()[ownType]] else old(View())
      ensures old(table) == null ==> old(View()) == map[]
    {
      hide HashTable.Valid, Pool.Valid, Hashing.Lawful;
      if table == null {
        table := Bootstrap(hashing, ownType);
      }
      t := table;
    }

    /** `fast_reference_at` on the registry. */
    method Entered(ofType: T) returns (r: Option<PoolRef<T, K, V>>)
      requires Valid() && table != null
      ensures Valid() && Footprint() == old(Footprint()) && View() == old(View())
      ensures r == if ofType in View() then Some(View()[ofType]) else None
    {
      r := table.FastReferenceAt(ofType);
    }

    /** Enters a free list that no type has yet. */
    method Enter(ofType: T, pool: Pool<K, V>)
      requires Valid() && table != null && ofType !in View()
      requires forall t :: t in View() ==> View()[t] != For(pool)
      modifies Footprint()
      ensures Valid() && OnlyGrows()
      ensures View() == old(View())[ofType := For(pool)]
    {
      hide HashTable.Linked, HashTable.Indexed, HashTable.LoadBounded, HashTable.CursorOk, Pool.Valid, Hashing.Lawful;
      table.Add(For(pool), ofType);
    }

    method NewPool() returns (pool: Pool<K, V>)
      requires Valid()
      ensures Valid() && Footprint() == old(Footprint()) && View() == old(View())
      ensures forall t :: t in View() ==> View()[t] != For(pool)
      ensures fresh(pool) && pool.free == [] && pool.created == 0 && PoolApart(pool, Footprint())
    {
      hide HashTable.Valid, Pool.Valid, Hashing.Lawful;
      pool := new Pool<K, V>();
    }

    /** A new free list for a type that has none: the key that is added was absent. */
    method Supply(ofType: T) returns (ref: PoolRef<T, K, V>)
      requires Valid() && table != null && ofType !in View()
      modifies Footprint()
      ensures Valid() && OnlyGrows()
      ensures ref.For? && View() == old(View())[ofType := ref] && PoolApart(ref.pool, Footprint())
      ensures fresh(ref.pool) && ref.pool.free == [] && ref.pool.created == 0
    {
      var pool := NewPool();
      hide Valid, View, Footprint, Pool.Valid;
      ref := For(pool);
      Enter(ofType, pool);
    }

    /** The free list of a type: looked up, or created and entered when the type has none yet. */
    method FreeNodesOf(ofType: T) returns (ref: PoolRef<T, K, V>)
      requires Valid()
      modifies this, Footprint()
      ensures Valid() && OnlyGrows()
      ensures View().Keys == old(View()).Keys + {ownType, ofType}
      ensures View()[ofType] == ref && forall t :: t in old(View()) ==> View()[t] == old(View())[t]
      ensures ofType !in old(View()) && ofType != ownType ==>
        ref.For? && PoolApart(ref.pool, Footprint()) && fresh(ref.pool) && ref.pool.free == [] && ref.pool.created == 0
    {
      hide Valid, View, Footprint, PoolApart;
      var d := CommonFreeNodes();
      var r := Entered(ofType);
      if r.Some? {
        ref := r.value;
      } else {
        ref := Supply(ofType);
      }
    }

    /** The free lists of other types are well formed and apart from the registry. */
    ghost predicate PoolsApart()
      requires Valid()
      reads Footprint(), Pools(), set p, n | p in Pools() && n in FreeNodesIn(p) :: n
    {
      forall p :: p in Pools() ==> PoolApart(p, Footprint())
    }

    ghost function Pools(): set<Pool<K, V>>
      requires Valid()
      reads Footprint()
    {
      set t | t in View() && View()[t].For? :: View()[t].pool
    }

    lemma PoolsAreAllocated()
      requires Valid()
      ensures forall p :: p in Pools() ==> allocated(p)
    {
      hide HashTable.Valid;
      forall p | p in Pools() ensures allocated(p) {
        var t :| t in View() && View()[t] == For(p);
        assert allocated(table.nodeOf[t].item);
      }
    }

    twostate lemma StaysApart(p: Pool<K, V>)
      requires old(PoolApart(p, Footprint())) && OnlyGrows() && unchanged(p) && unchanged(FreeNodesIn(p))
      ensures PoolApart(p, Footprint())
    {
      hide Footprint;
    }

    /** What the registry does leaves the free lists of other types apart from it. */
    method Request(ofType: T) returns (ref: PoolRef<T, K, V>)
      requires Valid() && PoolsApart()
      modifies this, Footprint()
      ensures Valid() && OnlyGrows() && PoolsApart()
      ensures View().Keys == old(View()).Keys + {ownType, ofType}
      ensures View()[ofType] == ref && forall t :: t in old(View()) ==> View()[t] == old(View())[t]
      ensures ref.Own? <==> ofType == ownType
    {
      hide Valid, View, Footprint, Pool.Valid;
      ghost var before := Pools();
      PoolsAreAllocated();
      ref := FreeNodesOf(ofType);
      OneEntryPerType();
      forall p | p in before ensures PoolApart(p, Footprint()) {
        StaysApart(p);
      }
      forall p | p in Pools() ensures PoolApart(p, Footprint()) {
        var t :| t in View() && View()[t] == For(p);
        assert t in old(View()) ==> p in before;
      }
    }

    /** A dictionary's `create_with_capacity`: the free list of its type, and empty buckets. */
    method CreateDictionary(ofType: T, h: Hashing<K>, newCapacity: int32) returns (d: Dictionary<T, K, V>)
      requires Valid() && PoolsApart() && IsTableEntry(newCapacity) && h.Lawful()
      modifies this, Footprint()
      ensures Valid() && OnlyGrows() && PoolsApart() && View().Keys == old(View()).Keys + {ownType, ofType}
      ensures Apart(d, Footprint()) && IsEmpty(d) && (d.OfRegistryType? <==> ofType == ownType)
      ensures if d.OfType? then d.table.hashing == h && d.table.capacity == newCapacity && fresh(d.table)
              else d.own.hashing == hashing && d.own.capacity == newCapacity && fresh(d.own)
      ensures FreeListOf(d) == Some(View()[ofType])
      ensures forall t :: t in old(View()) ==> View()[t] == old(View())[t]
    {
      hide Valid, View, Footprint, HashTable.Valid, Pool.Valid, Hashing.Lawful, IsTableEntry;
      var ref := Request(ofType);
      match ref {
        case For(pool) =>
          assert pool in Pools();
          var t := NewDictionary(pool, h, newCapacity);
          d := OfType(t);
        case Own(pool) =>
          var t := NewRegistryDictionary(pool, newCapacity);
          d := OfRegistryType(t);
      }
    }

    method NewDictionary(pool: Pool<K, V>, h: Hashing<K>, newCapacity: int32) returns (t: HashTable<K, V>)
      requires Valid() && PoolsApart() && IsTableEntry(newCapacity) && h.Lawful() && PoolApart(pool, Footprint())
      ensures Valid() && Footprint() == old(Footprint()) && View() == old(View()) && PoolsApart()
      ensures fresh(t) && t.hashing == h && t.capacity == newCapacity && t.freeNodes == pool
      ensures t.nodes == {} && t.nodeOf == map[] && Apart(Dictionary<T, K, V>.OfType(t), Footprint())
    {
      hide HashTable.Valid, Pool.Valid, Hashing.Lawful, IsTableEntry;
      t := EmptyTable(pool, h, newCapacity);
    }

    /** A dictionary of the registry's own type uses the free list of the registry itself. */
    method NewRegistryDictionary(pool: Pool<T, PoolRef<T, K, V>>, newCapacity: int32)
      returns (t: HashTable<T, PoolRef<T, K, V>>)
      requires Valid() && PoolsApart() && IsTableEntry(newCapacity)
      ensures Valid() && Footprint() == old(Footprint()) && View() == old(View()) && PoolsApart()
      ensures fresh(t) && t.hashing == hashing && t.capacity == newCapacity && t.freeNodes == pool
      ensures t.nodes == {} && t.nodeOf == map[] && Apart(Dictionary<T, K, V>.OfRegistryType(t), Footprint())
    {
      hide HashTable.Valid, Pool.Valid, IsTableEntry;
      assert hashing.Lawful();
      hide Hashing.Lawful;
      t := EmptyTable(pool, hashing, newCapacity);
    }

    /** Different types have different free lists, and the registry holds one entry per type it was asked for. */
    lemma OneEntryPerType()
      requires Valid()
      ensures OnePoolPerType(View()) && forall t :: t in View() && View()[t].Own? ==> t == ownType
      ensures ownType in View() ==> View()[ownType].Own? && View()[ownType].own.Valid()
      ensures if table == null then View() == map[] else ownType in View() && table.count == |View()|
    {
    }

    /** A dictionary made earlier stays as it is. */
    twostate lemma DictionaryStays(d: Dictionary<T, K, V>)
      requires old(Apart(d, Footprint())) && OnlyGrows()
      requires if d.OfType? then unchanged(d.table) && unchanged(d.table.buckets) && unchanged(d.table.nodes)
               else unchanged(d.own) && unchanged(d.own.buckets) && unchanged(d.own.nodes)
      requires d.OfType? ==> unchanged(old(d.table.freeNodes)) && unchanged(old(FreeNodesIn(d.table.freeNodes)))
      ensures Apart(d, Footprint()) && FreeListOf(d) == old(FreeListOf(d)) && Kept(d)
      ensures old(IsEmpty(d)) ==> IsEmpty(d)
    {
      hide Footprint, PoolApart;
      match d {
        case OfType(t) => StaysApart(t.freeNodes);
        case OfRegistryType(t) =>
      }
    }

    /** The dictionaries `ds` were made for `types`, each with the free list of its type. */
    ghost predicate Made(types: seq<T>, ds: seq<Dictionary<T, K, V>>)
      requires Valid()
      reads Footprint(), set d | d in ds :: Head(d)
    {
      && |ds| == |types|
      && (forall i :: 0 <= i < |ds| ==> types[i] in View() && FreeListOf(ds[i]) == Some(View()[types[i]]))
      && (forall i :: 0 <= i < |ds| ==> (ds[i].OfRegistryType? <==> types[i] == ownType))
      && (forall i, j :: 0 <= i < j < |ds| ==> ds[i] != ds[j])
    }

    /** The registry has got the types `gained`, and those it had keep their free lists. */
    twostate predicate Gained(gained: set<T>)
      requires old(Valid()) && Valid()
      reads Footprint()
    {
      && OnlyGrows() && View().Keys == old(View()).Keys + gained
      && forall t :: t in old(View()) ==> View()[t] == old(View())[t]
    }

    /** The types that a run for `types` enters. */
    ghost function EnteredBy(types: seq<T>): set<T> {
      (if types == [] then {} else {ownType}) + set t | t in types
    }

    lemma NothingMade()
      requires Valid()
      ensures Made([], []) && EnteredBy([]) == {}
    {
    }

    lemma EnteredNext(types: seq<T>, t: T)
      ensures EnteredBy(types + [t]) == EnteredBy(types) + {ownType, t}
    {
    }

    /** One more creation. */
    method CreateNext(ghost types: seq<T>, ofType: T, ghost ds: seq<Dictionary<T, K, V>>, h: Hashing<K>,
        newCapacity: int32)
      returns (d: Dictionary<T, K, V>)
      requires Valid() && PoolsApart() && IsTableEntry(newCapacity) && h.Lawful() && Made(types, ds)
      requires forall e :: e in ds ==> Apart(e, Footprint())
      modifies this, Footprint()
      ensures Valid() && OnlyGrows() && PoolsApart() && Made(types + [ofType], ds + [d])
      ensures forall e :: e in ds + [d] ==> Apart(e, Footprint())
      ensures forall e :: e in ds ==> Kept(e) && FreeListOf(e) == old(FreeListOf(e)) && (old(IsEmpty(e)) ==> IsEmpty(e))
      ensures IsEmpty(d)
      ensures View().Keys == old(View()).Keys + {ownType, ofType}
      ensures forall t :: t in old(View()) ==> View()[t] == old(View())[t]
    {
      hide Valid, View, Footprint, PoolsApart, HashTable.Valid, Hashing.Lawful, IsTableEntry;
      d := CreateDictionary(ofType, h, newCapacity);
      forall e | e in ds
        ensures Apart(e, Footprint()) && Kept(e) && FreeListOf(e) == old(FreeListOf(e)) && e != d
        ensures old(IsEmpty(e)) ==> IsEmpty(e)
      {
        DictionaryStays(e);
      }
    }

    /** A run of creations. */
    method CreateAll(types: seq<T>, h: Hashing<K>, newCapacity: int32) returns (ds: seq<Dictionary<T, K, V>>)
      requires Valid() && PoolsApart() && IsTableEntry(newCapacity) && h.Lawful()
      modifies this, Footprint()
      ensures Valid() && Gained(EnteredBy(types)) && PoolsApart() && Made(types, ds)
      ensures forall d :: d in ds ==> Apart(d, Footprint()) && IsEmpty(d)
    {
      hide Valid, View, Footprint, PoolsApart, HashTable.Valid, Hashing.Lawful, IsTableEntry;
      hide Made, Apart, IsEmpty, EnteredBy;
      ds := [];
      NothingMade();
      assert types[..0] == [];
      for n := 0 to |types|
        invariant Valid() && Gained(EnteredBy(types[..n])) && PoolsApart() && Made(types[..n], ds)
        invariant forall d :: d in ds ==> Apart(d, Footprint()) && IsEmpty(d)
      {
        var d := CreateNext(types[..n], types[n], ds, h, newCapacity);
        ds := ds + [d];
        EnteredNext(types[..n], types[n]);
        assert types[..n + 1] == types[..n] + [types[n]];
      }
      assert types[..|types|] == types;
    }

    /**
     Over any run that creates dictionaries of arbitrary types, the registry's own included: all are usable, two share
     a free list exactly when their types coincide, and the registry holds one entry per type and its own.
     */
    method Run(types: seq<T>, h: Hashing<K>, newCapacity: int32) returns (ds: seq<Dictionary<T, K, V>>)
      requires Valid() && PoolsApart() && IsTableEntry(newCapacity) && h.Lawful()
      modifies this, Footprint()
      ensures Valid() && OnlyGrows() && PoolsApart()
      ensures View().Keys == old(View()).Keys + (if types == [] then {} else {ownType}) + (set t | t in types)
      ensures forall t :: t in old(View()) ==> View()[t] == old(View())[t]
      ensures types != [] ==> table != null && table.count == |View()|
      ensures |ds| == |types| && forall i :: 0 <= i < |ds| ==> Usable(ds[i]) && IsEmpty(ds[i])
      ensures forall i, j :: 0 <= i < j < |ds| ==> ds[i] != ds[j]
      ensures forall i, j :: 0 <= i < |ds| && 0 <= j < |ds| ==>
        (FreeListOf(ds[i]) == FreeListOf(ds[j]) <==> types[i] == types[j])
    {
      hide Valid, View, Footprint, OnlyGrows, PoolsApart, HashTable.Valid, Pool.Valid, Hashing.Lawful, IsTableEntry;
      ds := CreateAll(types, h, newCapacity);
      OneEntryPerType();
      assert table == null ==> types == [] by {
        assert types != [] ==> types[0] in View();
      }
      forall i | 0 <= i < |ds| ensures Usable(ds[i]) {
        assert ds[i] in ds && Apart(ds[i], Footprint());
      }
    }
  }
}
