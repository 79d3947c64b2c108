/**
 What the hashed containers mean: finite maps and sets whose keys are compared with an equality that is
 coarser than identity. A map here keeps the key objects themselves, so that both views can be stated.
 */
module KeyedMaps {

  datatype Option<+T> = None | Some(value: T)

  /** What a table knows about its keys: a hash code and the `is_equal` of the key type. */
  datatype Hashing<!K(==,!new)> = Hashing(hash: K -> nat, isEqual: (K, K) -> bool) {

    /** `key_safe_equal`: identity first, then `is_equal`. */
    predicate Same(x: K, y: K) {
      x == y || isEqual(x, y)
    }

    function Slot(k: K, capacity: int): nat
      requires 0 < capacity
      ensures Slot(k, capacity) < capacity
    {
      hash(k) % capacity
    }

    /** `is_equal` is symmetric and, up to identity, transitive, and equal keys have one hash code. */
    ghost predicate Lawful() {
      && (forall x, y :: isEqual(x, y) ==> isEqual(y, x))
      && (forall x, y, z :: isEqual(x, y) && isEqual(y, z) ==> x == z || isEqual(x, z))
      && (forall x, y :: isEqual(x, y) ==> hash(x) == hash(y))
    }

    /** `key_safe_equal` is an equivalence relation. */
    lemma SameIsEquivalence(x: K, y: K, z: K)
      requires Lawful()
      ensures Same(x, x) && (Same(x, y) ==> Same(y, x)) && (Same(x, y) && Same(y, z) ==> Same(x, z))
    {
    }

    lemma SlotIs(k: K, capacity: int)
      requires 0 < capacity
      ensures Slot(k, capacity) == hash(k) % capacity
    {
    }

    lemma SameSlot(x: K, y: K, capacity: int)
      requires Lawful() && 0 < capacity
      ensures Same(x, y) ==> Slot(x, capacity) == Slot(y, capacity)
    {
    }
  }

  /** A stored key is `k` itself or equal to it; what hash codes they have does not matter. */
  ghost predicate HasEqual<K(!new)>(h: Hashing<K>, keys: set<K>, k: K) {
    exists x :: x in keys && (x == k || h.isEqual(x, k))
  }

  /** No two stored keys are equal. */
  ghost predicate DistinctKeys<K(!new)>(h: Hashing<K>, keys: set<K>) {
    forall x, y :: x in keys && y in keys && h.isEqual(x, y) ==> x == y
  }

  /** Overwrites the item of an equal key, or adds the key. */
  ghost function Put<K(!new), V>(h: Hashing<K>, m: map<K, V>, v: V, k: K): map<K, V> {
    if HasEqual(h, m.Keys, k) then var x :| x in m && h.Same(x, k); m[x := v] else m[k := v]
  }

  /** The item found for `q`: the map as a function of keys up to equality. */
  ghost function Lookup<K(!new), V>(h: Hashing<K>, m: map<K, V>, q: K): Option<V> {
    if HasEqual(h, m.Keys, q) then var x :| x in m && h.Same(x, q); Some(m[x]) else None
  }

  lemma PutAt<K(!new), V>(h: Hashing<K>, m: map<K, V>, v: V, k: K, x: K)
    requires h.Lawful() && DistinctKeys(h, m.Keys) && x in m && h.Same(x, k)
    ensures Put(h, m, v, k) == m[x := v]
  {
  }

  lemma PutAbsent<K(!new), V>(h: Hashing<K>, m: map<K, V>, v: V, k: K)
    requires forall x :: x in m ==> !h.Same(x, k)
    ensures Put(h, m, v, k) == m[k := v]
  {
  }

  lemma LookupAt<K(!new), V>(h: Hashing<K>, m: map<K, V>, q: K, x: K)
    requires h.Lawful() && DistinctKeys(h, m.Keys) && x in m && h.Same(x, q)
    ensures Lookup(h, m, q) == Some(m[x])
  {
  }

  /** Putting keeps keys distinct; it never replaces a stored key object and adds one only when none was equal. */
  lemma PutKeepsKeys<K(!new), V>(h: Hashing<K>, m: map<K, V>, v: V, k: K)
    requires h.Lawful() && DistinctKeys(h, m.Keys)
    ensures DistinctKeys(h, Put(h, m, v, k).Keys)
    ensures Put(h, m, v, k).Keys == if HasEqual(h, m.Keys, k) then m.Keys else m.Keys + {k}
  {
  }

  /**
   `m'` is `m` after `v` was put under `k`, key by key: only the item of an equal key changes, and a key that is neither
   stored itself nor equal to a stored one gets an entry of its own, whatever its hash code.
   */
  ghost predicate IsUpdate<K(!new), V>(h: Hashing<K>, m: map<K, V>, v: V, k: K, m': map<K, V>) {
    && (forall x :: x in m ==> x in m' && m'[x] == if x == k || h.isEqual(x, k) then v else m[x])
    && (forall x :: x in m' && x !in m ==> x == k && m'[x] == v)
    && (k in m' <==> k in m || forall x :: x in m ==> !h.isEqual(x, k))
  }

  lemma PutIsUpdate<K(!new), V>(h: Hashing<K>, m: map<K, V>, v: V, k: K)
    requires h.Lawful() && DistinctKeys(h, m.Keys)
    ensures IsUpdate(h, m, v, k, Put(h, m, v, k))
  {
    if HasEqual(h, m.Keys, k) {
      var x :| x in m && h.Same(x, k);
      PutAt(h, m, v, k, x);
      forall y | y in m && h.Same(y, k) ensures y == x {
        h.SameIsEquivalence(x, k, y);
        h.SameIsEquivalence(y, k, x);
      }
    } else {
      PutAbsent(h, m, v, k);
    }
  }

  /** The answer for `q` in terms of the stored keys. */
  lemma LookupIs<K(!new), V>(h: Hashing<K>, m: map<K, V>, q: K)
    requires h.Lawful() && DistinctKeys(h, m.Keys)
    ensures Lookup(h, m, q).None? <==> forall x :: x in m ==> x != q && !h.isEqual(x, q)
    ensures forall x :: x in m && (x == q || h.isEqual(x, q)) ==> Lookup(h, m, q) == Some(m[x])
  {
    forall x | x in m && (x == q || h.isEqual(x, q)) ensures Lookup(h, m, q) == Some(m[x]) {
      LookupAt(h, m, q, x);
    }
  }

  /** Putting changes the answer for keys equal to `k` and for no others. */
  lemma LookupAfterPut<K(!new), V>(h: Hashing<K>, m: map<K, V>, v: V, k: K, q: K)
    requires h.Lawful() && DistinctKeys(h, m.Keys)
    ensures Lookup(h, Put(h, m, v, k), q) == if h.Same(k, q) then Some(v) else Lookup(h, m, q)
  {
    var m' := Put(h, m, v, k);
    PutKeepsKeys(h, m, v, k);
    if HasEqual(h, m.Keys, k) {
      var x :| x in m && h.Same(x, k);
      PutAt(h, m, v, k, x);
      h.SameIsEquivalence(x, k, q);
      h.SameIsEquivalence(k, x, q);
      if h.Same(k, q) {
        LookupAt(h, m', q, x);
      } else {
        LookupElsewhere(h, m, m', q);
      }
    } else if h.Same(k, q) {
      LookupAt(h, m', q, k);
    } else {
      LookupElsewhere(h, m, m', q);
    }
  }

  /** Maps that agree about the keys equal to `q` give the same answer for it. */
  lemma LookupElsewhere<K(!new), V>(h: Hashing<K>, m: map<K, V>, m': map<K, V>, q: K)
    requires h.Lawful() && DistinctKeys(h, m.Keys) && DistinctKeys(h, m'.Keys)
    requires forall x :: h.Same(x, q) ==> (x in m <==> x in m') && (x in m ==> m[x] == m'[x])
    ensures Lookup(h, m, q) == Lookup(h, m', q)
  {
    if x :| x in m && h.Same(x, q) {
      LookupAt(h, m, q, x);
      LookupAt(h, m', q, x);
    }
  }

  datatype Entry<+K, +V> = Entry(item: V, key: K)

  /** A run of `put` calls. */
  ghost function Puts<K(!new), V>(h: Hashing<K>, m: map<K, V>, puts: seq<Entry<K, V>>): map<K, V> {
    if puts == [] then m
    else var p := puts[|puts| - 1]; Put(h, Puts(h, m, puts[..|puts| - 1]), p.item, p.key)
  }

  lemma {:induction false} PutsKeepDistinct<K(!new), V>(h: Hashing<K>, m: map<K, V>, puts: seq<Entry<K, V>>)
    requires h.Lawful() && DistinctKeys(h, m.Keys)
    ensures DistinctKeys(h, Puts(h, m, puts).Keys)
  {
    if puts != [] {
      var p := puts[|puts| - 1];
      var before := Puts(h, m, puts[..|puts| - 1]);
      PutsKeepDistinct(h, m, puts[..|puts| - 1]);
      PutKeepsKeys(h, before, p.item, p.key);
    }
  }

  /** Put `n` is the last one whose key is equal to `q`. */
  ghost predicate LastFor<K(!new), V>(h: Hashing<K>, puts: seq<Entry<K, V>>, n: nat, q: K) {
    n < |puts| && h.Same(puts[n].key, q) && forall i :: n < i < |puts| ==> !h.Same(puts[i].key, q)
  }

  /** Put `n` is the first one whose key is equal to `q`. */
  ghost predicate FirstFor<K(!new), V>(h: Hashing<K>, puts: seq<Entry<K, V>>, n: nat, q: K) {
    n < |puts| && h.Same(puts[n].key, q) && forall i :: 0 <= i < n ==> !h.Same(puts[i].key, q)
  }

  /** Among the puts under keys equal to `x`, the first one used the very object `x`. */
  ghost predicate FirstIs<K(!new), V>(h: Hashing<K>, puts: seq<Entry<K, V>>, x: K) {
    exists n: nat :: FirstFor(h, puts, n, x) && puts[n].key == x
  }

  lemma FirstIsAfter<K(!new), V>(h: Hashing<K>, puts: seq<Entry<K, V>>, p: Entry<K, V>, x: K)
    ensures FirstIs(h, puts + [p], x) <==>
      FirstIs(h, puts, x) || (p.key == x && forall i :: 0 <= i < |puts| ==> !h.Same(puts[i].key, x))
  {
    var all := puts + [p];
    assert forall i :: 0 <= i < |puts| ==> all[i] == puts[i];
    forall n: nat | n < |puts| ensures FirstFor(h, all, n, x) <==> FirstFor(h, puts, n, x) {
    }
    assert FirstFor(h, all, |puts|, x) <==> h.Same(p.key, x) && forall i :: 0 <= i < |puts| ==> !h.Same(puts[i].key, x);
  }

  lemma LookupIn<K(!new), V>(h: Hashing<K>, m: map<K, V>, q: K)
    ensures Lookup(h, m, q).Some? <==> HasEqual(h, m.Keys, q)
  {
  }

  /** Reading after any run gives the item of the last put under an equal key, and nothing without one. */
  lemma {:induction false} LastWriteWins<K(!new), V>(h: Hashing<K>, puts: seq<Entry<K, V>>, q: K)
    requires h.Lawful()
    ensures Lookup(h, Puts(h, map[], puts), q).None? <==> forall i :: 0 <= i < |puts| ==> !h.Same(puts[i].key, q)
    ensures forall n: nat :: LastFor(h, puts, n, q) ==> Lookup(h, Puts(h, map[], puts), q) == Some(puts[n].item)
  {
    hide Hashing.Lawful, Hashing.Same, Lookup, Put, DistinctKeys;
    if puts == [] {
      LookupIn<K, V>(h, map[], q);
    } else {
      var before := puts[..|puts| - 1];
      var p := puts[|puts| - 1];
      LastWriteWins(h, before, q);
      NoKeysAreDistinct<K, V>(h, map[]);
      PutsKeepDistinct(h, map[], before);
      LookupAfterPut(h, Puts(h, map[], before), p.item, p.key, q);
      assert forall i :: 0 <= i < |before| ==> puts[i] == before[i];
      forall n: nat | LastFor(h, puts, n, q) ensures Lookup(h, Puts(h, map[], puts), q) == Some(puts[n].item) {
        if n < |before| {
          assert LastFor(h, before, n, q);
        }
      }
    }
  }

  lemma NoKeysAreDistinct<K(!new), V>(h: Hashing<K>, m: map<K, V>)
    requires m == map[]
    ensures DistinctKeys(h, m.Keys)
  {
  }

  /** The key object that stays in the table is the one that was put first among its equals. */
  lemma {:induction false} FirstKeyStays<K(!new), V>(h: Hashing<K>, puts: seq<Entry<K, V>>, x: K)
    requires h.Lawful()
    ensures x in Puts(h, map[], puts) <==> FirstIs(h, puts, x)
  {
    hide Hashing.Lawful, Hashing.Same, Lookup, Put, DistinctKeys, LastFor;
    if puts != [] {
      var before := puts[..|puts| - 1];
      var p := puts[|puts| - 1];
      var m := Puts(h, map[], before);
      assert puts == before + [p];
      FirstIsAfter(h, before, p, x);
      hide FirstIs, FirstFor;
      FirstKeyStays(h, before, x);
      NoKeysAreDistinct<K, V>(h, map[]);
      PutsKeepDistinct(h, map[], before);
      PutKeepsKeys(h, m, p.item, p.key);
      LastWriteWins(h, before, x);
      LookupIn(h, m, x);
    }
  }
}
