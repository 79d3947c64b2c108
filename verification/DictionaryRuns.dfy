/** Runs of `put`, and the walk by index that `copy` and the iterators are built on. */
module DictionaryRuns {
  import opened KeyedMaps
  import opened HashTables

  /** Any run of `put` computes the abstract run, whatever the pool holds at the start. */
  method PutAll<K(==,!new), V>(t: HashTable<K, V>, puts: seq<Entry<K, V>>)
    requires t.Valid() && t.freeNodes.Valid() && DistinctKeys(t.hashing, t.Keys())
    modifies t, t.buckets, t.nodes, t.freeNodes, t.freeNodes.free
    ensures t.Valid() && t.freeNodes.Valid() && t.Confined()
    ensures DistinctKeys(t.hashing, t.Keys())
    ensures t.View() == Puts(t.hashing, old(t.View()), puts)
  {
    hide HashTable.Linked, HashTable.Indexed, HashTable.LoadBounded, HashTable.CursorOk, Pool.Valid;
    hide DistinctKeys, Put, Hashing.Lawful;
    for n := 0 to |puts|
      invariant t.Valid() && t.freeNodes.Valid() && t.Confined()
      invariant DistinctKeys(t.hashing, t.Keys())
      invariant t.View() == Puts(t.hashing, old(t.View()), puts[..n])
    {
      PutKeepsKeys(t.hashing, t.View(), puts[n].item, puts[n].key);
      t.Put(puts[n].item, puts[n].key);
      assert puts[..n + 1][..n] == puts[..n];
    }
    assert puts[..|puts|] == puts;
  }

  method ReadEntry<K(==,!new), V>(t: HashTable<K, V>, index: int) returns (entry: Entry<K, V>)
    requires t.Valid() && 1 <= index <= t.count
    modifies t`cacheUser, t`cacheNode, t`cacheBuckets
    ensures t.Valid() && t.Listing() == old(t.Listing()) && |t.Listing()| == t.count && entry == t.Listing()[index - 1]
  {
    hide *;
    var v := t.Item(index);
    var k := t.Key(index);
    entry := Entry(v, k);
  }

  /** Reads every item and key through the cursor, by index. */
  method ReadAll<K(==,!new), V>(t: HashTable<K, V>) returns (entries: seq<Entry<K, V>>)
    requires t.Valid()
    modifies t`cacheUser, t`cacheNode, t`cacheBuckets
    ensures t.Valid() && entries == t.Listing() == old(t.Listing())
  {
    hide *;
    t.ListingCount();
    ghost var listing := t.Listing();
    entries := [];
    for i := 0 to t.count
      invariant t.Valid() && t.Listing() == listing && |listing| == t.count && entries == listing[..i]
    {
      var entry := ReadEntry(t, i + 1);
      entries := entries + [entry];
    }
  }

  /** Walking the indices from 1 to `count` lists every stored key once, with its item. */
  method Walk<K(==,!new), V>(t: HashTable<K, V>) returns (entries: seq<Entry<K, V>>)
    requires t.Valid()
    modifies t`cacheUser, t`cacheNode, t`cacheBuckets
    ensures t.Valid() && |entries| == |t.View()|
    ensures forall i :: 0 <= i < |entries| ==> entries[i].key in t.View() && t.View()[entries[i].key] == entries[i].item
    ensures forall i, j :: 0 <= i < j < |entries| ==> entries[i].key != entries[j].key
    ensures forall k :: k in t.View() ==> exists i :: 0 <= i < |entries| && entries[i].key == k
    ensures DistinctKeys(t.hashing, t.Keys()) ==> ListsUpToEquality(t.hashing, t.View(), entries)
  {
    hide HashTable.Linked, HashTable.LoadBounded, HashTable.CursorOk, HashTable.Listing;
    hide ListsUpToEquality, DistinctKeys;
    entries := ReadAll(t);
    t.ListingIsView();
    if DistinctKeys(t.hashing, t.Keys()) {
      assert t.hashing.Lawful();
      DistinctKeysListed(t.hashing, t.View(), entries);
    }
  }

  /**
   The keys listed are pairwise not equal, `at` gives for each the item it is listed with, and every key that
   has an item is equal to one that is listed.
   */
  ghost predicate ListsUpToEquality<K(!new), V>(h: Hashing<K>, m: map<K, V>, entries: seq<Entry<K, V>>) {
    && (forall i, j :: 0 <= i < j < |entries| ==> !h.Same(entries[i].key, entries[j].key))
    && (forall i :: 0 <= i < |entries| ==> Lookup(h, m, entries[i].key) == Some(entries[i].item))
    && (forall q :: Lookup(h, m, q).Some? ==> exists i :: 0 <= i < |entries| && h.Same(entries[i].key, q))
  }

  lemma DistinctKeysListed<K(!new), V>(h: Hashing<K>, m: map<K, V>, entries: seq<Entry<K, V>>)
    requires h.Lawful() && DistinctKeys(h, m.Keys)
    requires forall i :: 0 <= i < |entries| ==> entries[i].key in m && m[entries[i].key] == entries[i].item
    requires forall i, j :: 0 <= i < j < |entries| ==> entries[i].key != entries[j].key
    requires forall k :: k in m ==> exists i :: 0 <= i < |entries| && entries[i].key == k
    ensures ListsUpToEquality(h, m, entries)
  {
    hide Lookup, Hashing.Lawful;
    forall i | 0 <= i < |entries| ensures Lookup(h, m, entries[i].key) == Some(entries[i].item) {
      LookupAt(h, m, entries[i].key, entries[i].key);
    }
    forall q | Lookup(h, m, q).Some? ensures exists i :: 0 <= i < |entries| && h.Same(entries[i].key, q) {
      var x := LookedUp(h, m, q);
    }
  }

  lemma LookedUp<K(!new), V>(h: Hashing<K>, m: map<K, V>, q: K) returns (x: K)
    requires Lookup(h, m, q).Some?
    ensures x in m && h.Same(x, q)
  {
    x :| x in m && h.Same(x, q);
  }
}
