/**
 The hashed containers of one type: any number of tables on one pool of free nodes. Whatever is done to one table
 through its own operations leaves the others alone and the account of nodes balanced.
 */
module Families {
  import opened KeyedMaps
  import opened HashTables

  function Sum(s: seq<int>): int {
    if s == [] then 0 else Sum(s[..|s| - 1]) + s[|s| - 1]
  }

  lemma {:induction false} SumUpdated(s: seq<int>, i: nat, x: int)
    requires i < |s|
    ensures Sum(s[i := x]) == Sum(s) - s[i] + x
  {
    var n := |s| - 1;
    if i < n {
      assert s[i := x][..n] == s[..n][i := x];
      SumUpdated(s[..n], i, x);
    } else {
      assert s[i := x][..n] == s[..n];
    }
  }

  class Family<K(==,!new), V> {
    const hashing: Hashing<K>
    /** What a node on the free list holds. */
    const blankItem: V
    const blankKey: K
    const pool: Pool<K, V>
    var tables: seq<HashTable<K, V>>

    ghost predicate Apart()
      reads this, tables
    {
      forall i, j :: 0 <= i < j < |tables| ==> tables[i] != tables[j] && tables[i].buckets != tables[j].buckets
    }

    ghost predicate TableOk(t: HashTable<K, V>)
      reads t, t.nodes, t.buckets
    {
      t.Valid() && t.freeNodes == pool && t.hashing == hashing
    }

    ghost function Counts(): seq<int>
      reads this, tables
    {
      seq(|tables|, i requires 0 <= i < |tables| reads this, tables => tables[i].count)
    }

    ghost function Footprint(): set<object>
      reads this, pool, tables
    {
      {this, pool} + (set n | n in pool.free) + (set t | t in tables) +
      (set t | t in tables :: t.buckets) + (set t, n | t in tables && n in t.nodes :: n)
    }

    /** Every table is well formed, and nodes allocated are nodes free plus nodes stored. */
    ghost predicate Valid()
      reads Footprint()
    {
      && hashing.Lawful()
      && pool.Valid()
      && Apart()
      && (forall t {:trigger TableOk(t)} :: t in tables ==> TableOk(t))
      && pool.created == |pool.free| + Sum(Counts())
    }

    constructor (h: Hashing<K>, blankItem: V, blankKey: K)
      requires h.Lawful()
      ensures Valid() && fresh(Footprint()) && tables == [] && hashing == h
    {
      hashing, this.blankItem, this.blankKey, tables := h, blankItem, blankKey, [];
      pool := new Pool();
    }

    /** A family on a free list that is already there. */
    constructor OnPool(h: Hashing<K>, pool: Pool<K, V>, blankItem: V, blankKey: K)
      requires h.Lawful() && pool.Valid() && pool.free == [] && pool.created == 0
      ensures Valid() && fresh(Footprint() - {pool}) && tables == [] && hashing == h && this.pool == pool
    {
      hashing, this.blankItem, this.blankKey, this.pool, tables := h, blankItem, blankKey, pool, [];
    }

    /** What belongs to the family now belonged to it before, or is new. */
    twostate predicate OnlyGrows()
      reads Footprint()
    {
      forall o :: o in Footprint() ==> o in old(Footprint()) || fresh(o)
    }

    /** No two tables share a node, and no table holds a node of the free list. */
    lemma TablesApart(s: HashTable<K, V>, t: HashTable<K, V>)
      requires Valid() && s in tables && t in tables && s != t
      ensures s.nodes !! t.nodes && s.buckets != t.buckets
      ensures forall n :: n in t.nodes ==> n !in pool.free
    {
      assert TableOk(s) && TableOk(t);
      forall n | n in t.nodes ensures n !in pool.free && n !in s.nodes {
        assert InPlace(n, t.buckets, t.chains);
        assert n in s.nodes ==> InPlace(n, s.buckets, s.chains);
      }
    }

    /** What is done to table `s` does not touch table `t`. */
    ghost predicate Clear(s: HashTable<K, V>, t: HashTable<K, V>)
      reads s, t, pool
    {
      s != t && s.nodes !! t.nodes && s.buckets != t.buckets && forall n :: n in t.nodes ==> n !in pool.free
    }

    /** The account of nodes when one table changed. */
    twostate lemma AccountKept(i: nat)
      requires old(Valid()) && tables == old(tables) && i < |tables| && tables[i].freeNodes == pool
      requires old(tables[i].freeNodes) == pool && tables[i].Confined()
      requires forall j :: 0 <= j < |tables| && j != i ==> tables[j].count == old(tables[j].count)
      ensures pool.created == |pool.free| + Sum(Counts())
    {
      hide TableOk, Hashing.Lawful, Pool.Valid;
      SumUpdated(old(Counts()), i, tables[i].count);
      assert Counts() == old(Counts())[i := tables[i].count];
    }

    /** From the changed table and the untouched others back to the whole. */
    twostate lemma Resume(i: nat)
      requires old(Valid()) && tables == old(tables) && i < |tables|
      requires old(TableOk(tables[i])) && TableOk(tables[i]) && pool.Valid() && tables[i].Confined()
      requires forall t {:trigger TableOk(t)} :: t in tables && t != tables[i] ==> TableOk(t) && unchanged(t)
      ensures Valid() && OnlyGrows()
    {
      hide HashTable.Valid, Hashing.Lawful, Pool.Valid;
      forall j | 0 <= j < |tables| && j != i
        ensures tables[j].count == old(tables[j].count) && tables[j].buckets == old(tables[j].buckets)
      {
        assert TableOk(tables[j]);
      }
      AccountKept(i);
      hide Sum, Counts;
      forall t | t in tables && t != tables[i] ensures t.nodes == old(t.nodes) && t.buckets == old(t.buckets) {
        assert TableOk(t);
      }
    }

    /** A table that stores nothing adds nothing to the account. */
    twostate lemma AccountJoined(new s: HashTable<K, V>)
      requires tables == old(tables) + [s] && s.count == 0
      requires forall j :: 0 <= j < |old(tables)| ==> tables[j].count == old(tables[j].count)
      ensures Sum(Counts()) == old(Sum(Counts()))
    {
      assert Counts() == old(Counts()) + [0];
      assert (old(Counts()) + [0])[..|old(Counts())|] == old(Counts());
    }

    /** A new table joins: it owns no node yet. */
    twostate lemma Joined(new s: HashTable<K, V>)
      requires old(Valid()) && tables == old(tables) + [s] && unchanged(pool) && pool.Valid()
      requires fresh(s) && fresh(s.buckets) && s.nodes == {} && TableOk(s) && s.count == 0
      requires forall t {:trigger TableOk(t)} :: t in old(tables) ==> TableOk(t) && unchanged(t)
      ensures Valid() && OnlyGrows()
    {
      hide TableOk, Pool.Valid, Hashing.Lawful, Sum, Counts;
      forall j | 0 <= j < |old(tables)|
        ensures tables[j].count == old(tables[j].count) && tables[j].buckets == old(tables[j].buckets)
      {
        assert TableOk(tables[j]);
      }
      AccountJoined(s);
      forall t | t in old(tables)
        ensures TableOk(t) && t != s && t.nodes == old(t.nodes) && t.buckets == old(t.buckets)
      {
        assert TableOk(t);
      }
    }
  }
}
