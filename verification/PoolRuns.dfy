/**
 Any number of hashed sets of one type on one free-node pool, and every run of operations on them.
 */
module PoolRuns {
  import opened KeyedMaps
  import opened HashTables
  import opened HashedSets
  import opened Families

  /** One call. Sets are numbered in the order of their creation; calls on a set that does not exist are skipped. */
  datatype Call<E> = Create | Remake(i: nat) | AddTo(i: nat, e: E) | FastAddTo(i: nat, e: E) | Clear(i: nat)

  /** What a call makes of the set it is made on. */
  ghost function After<E(!new)>(h: Hashing<E>, s: set<E>, call: Call<E>): set<E> {
    match call
    case AddTo(_, e) => Include(h, s, e)
    case FastAddTo(_, e) => s + {e}
    case _ => {}
  }

  /** What a call means for the abstract sets. */
  ghost function Effect<E(!new)>(h: Hashing<E>, sets: seq<set<E>>, call: Call<E>): seq<set<E>> {
    if call.Create? then sets + [{}]
    else if call.i < |sets| then sets[call.i := After(h, sets[call.i], call)]
    else sets
  }

  ghost function Effects<E(!new)>(h: Hashing<E>, sets: seq<set<E>>, calls: seq<Call<E>>): seq<set<E>> {
    if calls == [] then sets else Effect(h, Effects(h, sets, calls[..|calls| - 1]), calls[|calls| - 1])
  }

  /** The call stores something equal to `q` in set `i`, if there is such a set. */
  ghost predicate Adds<E(!new)>(h: Hashing<E>, call: Call<E>, i: nat, q: E) {
    (call.AddTo? || call.FastAddTo?) && call.i == i && h.Same(call.e, q)
  }

  ghost predicate Empties<E>(call: Call<E>, i: nat) {
    (call.Clear? || call.Remake?) && call.i == i
  }

  /** After `n` of the calls, set `i` exists. */
  ghost predicate Exists<E(!new)>(h: Hashing<E>, calls: seq<Call<E>>, n: nat, i: nat)
    requires n <= |calls|
  {
    i < |Effects(h, [], calls[..n])|
  }

  /** Call `n` stored something equal to `q` in set `i` and no later call emptied the set. */
  ghost predicate StoredBy<E(!new)>(h: Hashing<E>, calls: seq<Call<E>>, n: nat, i: nat, q: E)
    requires n < |calls|
  {
    && Exists(h, calls, n, i)
    && Adds(h, calls[n], i, q)
    && forall m :: n < m < |calls| ==> !Empties(calls[m], i)
  }

  /**
   `has` after any run: an element is found exactly when an equal one was added, by `add` or by `fast_add`,
   since the set was last emptied.
   */
  lemma {:induction false} HasIffAdded<E(!new)>(h: Hashing<E>, calls: seq<Call<E>>, i: nat, q: E)
    requires h.Lawful() && i < |Effects(h, [], calls)|
    ensures HasEqual(h, Effects(h, [], calls)[i], q) <==> exists n :: 0 <= n < |calls| && StoredBy(h, calls, n, i, q)
  {
    if calls != [] {
      var last := |calls| - 1;
      var before := calls[..last];
      var sets := Effects(h, [], before);
      StoredEarlier(h, calls, i, q);
      if i < |sets| {
        HasIffAdded(h, before, i, q);
        EffectOnHas(h, sets, calls[last], i, q);
      } else {
        forall n | 0 <= n < last ensures !Exists(h, before, n, i) {
          SetsStay(h, before, n);
        }
      }
    }
  }

  lemma {:induction false} SetsStay<E(!new)>(h: Hashing<E>, calls: seq<Call<E>>, n: nat)
    requires n <= |calls|
    ensures |Effects(h, [], calls[..n])| <= |Effects(h, [], calls)|
  {
    if n < |calls| {
      var before := calls[..|calls| - 1];
      assert before[..n] == calls[..n];
      SetsStay(h, before, n);
    } else {
      assert calls[..n] == calls;
    }
  }

  lemma EffectOnHas<E(!new)>(h: Hashing<E>, sets: seq<set<E>>, call: Call<E>, i: nat, q: E)
    requires h.Lawful() && i < |sets|
    ensures HasEqual(h, Effect(h, sets, call)[i], q) <==>
      Adds(h, call, i, q) || (!Empties(call, i) && HasEqual(h, sets[i], q))
  {
  }

  /** What was stored is stored by the last call, or was stored before and survives it. */
  lemma StoredEarlier<E(!new)>(h: Hashing<E>, calls: seq<Call<E>>, i: nat, q: E)
    requires calls != []
    ensures var last := |calls| - 1;
      (exists n :: 0 <= n < |calls| && StoredBy(h, calls, n, i, q)) <==>
      (Exists(h, calls, last, i) && Adds(h, calls[last], i, q)) ||
      (!Empties(calls[last], i) && exists n :: 0 <= n < last && StoredBy(h, calls[..last], n, i, q))
  {
    var last := |calls| - 1;
    forall n | 0 <= n < last
      ensures StoredBy(h, calls, n, i, q) <==> !Empties(calls[last], i) && StoredBy(h, calls[..last], n, i, q)
    {
      assert calls[..last][..n] == calls[..n];
      if StoredBy(h, calls[..last], n, i, q) && !Empties(calls[last], i) {
        forall m | n < m < |calls| ensures !Empties(calls[m], i) {
          assert m < last ==> calls[m] == calls[..last][m];
        }
      }
    }
    assert StoredBy(h, calls, last, i, q) <==> Exists(h, calls, last, i) && Adds(h, calls[last], i, q);
  }

  /** The abstract value: the elements of each set. */
  ghost function View<E(!new)>(f: Family<E, ()>): (v: seq<set<E>>)
    reads f, f.tables
    ensures |v| == |f.tables|
  {
    seq(|f.tables|, i requires 0 <= i < |f.tables| reads f, f.tables => f.tables[i].Keys())
  }

  /** A call on one set: its value changes as specified. */
  method CallOwn<E(==,!new)>(f: Family<E, ()>, s: HashedSet<E>, call: Call<E>)
    requires f.TableOk(s) && f.pool.Valid() && !call.Create?
    modifies s, s.buckets, s.nodes, f.pool, f.pool.free
    ensures f.TableOk(s) && f.pool.Valid() && s.Confined()
    ensures s.Keys() == After(f.hashing, old(s.Keys()), call)
  {
    assert s.hashing.Lawful();
    hide HashTable.Linked, HashTable.Indexed, HashTable.LoadBounded, HashTable.CursorOk, Pool.Valid;
    hide Hashing.Lawful, HasEqual;
    match call {
      case Remake(_) => Make(s, f.pool, f.blankKey);
      case AddTo(_, e) => Add(s, e);
      case FastAddTo(_, e) => FastAdd(s, e);
      case Clear(_) => s.ClearCount((), f.blankKey);
    }
  }

  /** A call on one set touches no other. */
  method CallOne<E(==,!new)>(f: Family<E, ()>, s: HashedSet<E>, call: Call<E>, ghost others: set<HashedSet<E>>)
    requires f.TableOk(s) && f.pool.Valid() && !call.Create?
    requires forall t :: t in others ==> f.TableOk(t) && f.Clear(s, t)
    modifies s, s.buckets, s.nodes, f.pool, f.pool.free
    ensures f.TableOk(s) && f.pool.Valid() && s.Confined()
    ensures s.Keys() == After(f.hashing, old(s.Keys()), call)
    ensures forall t {:trigger f.TableOk(t)} :: t in others ==> f.TableOk(t) && unchanged(t)
  {
    hide HashTable.Valid, HashTable.Confined, Pool.Valid, After;
    CallOwn(f, s, call);
  }

  /** Allocates and makes one set. */
  method NewSet<E(==,!new)>(f: Family<E, ()>) returns (s: HashedSet<E>)
    requires f.hashing.Lawful()
    ensures fresh(s) && fresh(s.buckets) && s.nodes == {} && f.TableOk(s)
    ensures s.Keys() == {} && s.count == 0
  {
    s := new HashTable(f.hashing);
    Make(s, f.pool, f.blankKey);
  }

  method CreateSet<E(==,!new)>(f: Family<E, ()>)
    requires f.Valid()
    modifies f
    ensures f.Valid() && f.OnlyGrows()
    ensures View(f) == old(View(f)) + [{}]
  {
    hide Family.TableOk, Pool.Valid, Hashing.Lawful, Family.Counts;
    var s := NewSet(f);
    forall t {:trigger f.TableOk(t)} | t in f.tables ensures f.TableOk(t) && t.Keys() == old(t.Keys()) {
      assert old(f.TableOk(t));
    }
    hide HashTable.Keys;
    f.tables := f.tables + [s];
    f.Joined(s);
    assert View(f) == old(View(f)) + [{}];
  }

  method CallAt<E(==,!new)>(f: Family<E, ()>, call: Call<E>)
    requires f.Valid() && !call.Create? && call.i < |f.tables|
    modifies f.tables[call.i], f.tables[call.i].buckets, f.tables[call.i].nodes, f.pool, f.pool.free
    ensures f.Valid() && f.OnlyGrows()
    ensures View(f) == Effect(f.hashing, old(View(f)), call)
  {
    hide HashTable.Valid, HashTable.Confined, Pool.Valid, Family.Footprint, Hashing.Lawful;
    var s := f.tables[call.i];
    assert f.TableOk(s);
    forall t | t in f.tables && t != s ensures f.TableOk(t) && f.Clear(s, t) {
      f.TablesApart(s, t);
    }
    CallOne(f, s, call, (set t | t in f.tables && t != s));
    f.Resume(call.i);
    forall j | 0 <= j < |f.tables| && j != call.i ensures f.tables[j].Keys() == old(f.tables[j].Keys()) {
      assert f.TableOk(f.tables[j]);
    }
    assert View(f) == old(View(f))[call.i := s.Keys()];
  }

  method Execute<E(==,!new)>(f: Family<E, ()>, call: Call<E>)
    requires f.Valid()
    modifies f.Footprint()
    ensures f.Valid() && f.OnlyGrows()
    ensures View(f) == Effect(f.hashing, old(View(f)), call)
  {
    hide HashTable.Valid, Pool.Valid, Family.TableOk, Family.Counts, View;
    if call.Create? {
      CreateSet(f);
    } else if call.i < |f.tables| {
      CallAt(f, call);
    }
  }

  /** Whatever the calls and their order, the sets stay valid and are those of the abstract run. */
  method Run<E(==,!new)>(f: Family<E, ()>, calls: seq<Call<E>>)
    requires f.Valid()
    modifies f.Footprint()
    ensures f.Valid() && f.OnlyGrows()
    ensures View(f) == Effects(f.hashing, old(View(f)), calls)
  {
    hide Family.Valid, View, Effect;
    for n := 0 to |calls|
      invariant f.Valid() && f.OnlyGrows()
      invariant View(f) == Effects(f.hashing, old(View(f)), calls[..n])
    {
      Execute(f, calls[n]);
      assert calls[..n + 1][..n] == calls[..n];
    }
    assert calls[..|calls|] == calls;
  }
}
