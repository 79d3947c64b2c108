/**
 The chained hash table behind HASHED_DICTIONARY and HASHED_SET: an array of bucket heads, linked nodes,
 rehashing in place and a pool of recycled nodes that every table of one type shares.
 */
module HashTables {
  import opened HashTableSize
  import opened Int32
  import opened Chains
  import opened KeyedMaps

  /**
   One link of a bucket chain or of the free list. The ghost fields say where the node is: which bucket array
   (or pool) owns it, in which chain, and how far above the end of that chain.
   */
  class Node<K(!new), V> {
    var item: V
    var key: K
    var next: Node?<K, V>
    ghost var owner: object?
    ghost var slot: nat
    ghost var depth: nat

    constructor (item: V, key: K, next: Node?<K, V>)
      ensures this.item == item && this.key == key && this.next == next
    {
      this.item, this.key, this.next := item, key, next;
    }

    method Make(item: V, key: K, next: Node?<K, V>)
      modifies `item, `key, `next
      ensures this.item == item && this.key == key && this.next == next
    {
      this.item, this.key, this.next := item, key, next;
    }
  }

  ghost function Top<K(!new), V>(chain: seq<Node<K, V>>): Node?<K, V> {
    if chain == [] then null else chain[|chain| - 1]
  }

  ghost function Below<K(!new), V>(chain: seq<Node<K, V>>, depth: nat): Node?<K, V>
    requires depth < |chain|
  {
    if depth == 0 then null else chain[depth - 1]
  }

  /** The node is where its ghost fields say, and its `next` is the node below it. */
  ghost predicate InPlace<K(!new), V>(n: Node<K, V>, owner: object, chains: seq<seq<Node<K, V>>>)
    reads n`owner, n`slot, n`depth, n`next
  {
    && n.owner == owner
    && n.slot < |chains|
    && n.depth < |chains[n.slot]|
    && chains[n.slot][n.depth] == n
    && n.next == Below(chains[n.slot], n.depth)
  }

  ghost function Contents<K(!new), V>(s: seq<Node<K, V>>): (r: seq<Entry<K, V>>)
    ensures |r| == |s|
    ensures forall i :: 0 <= i < |s| ==> r[i] == Entry(s[i].item, s[i].key)
    reads s
  {
    seq(|s|, i requires 0 <= i < |s| reads s => Entry(s[i].item, s[i].key))
  }

  /** `after` is `before` with `e` put in behind all entries of earlier buckets; what was there keeps its order. */
  ghost predicate JoinsBucket<K(!new), V>(h: Hashing<K>, capacity: int, before: seq<Entry<K, V>>, e: Entry<K, V>,
      after: seq<Entry<K, V>>)
    requires 0 < capacity
  {
    exists p :: 0 <= p <= |before| && after == Inserted(before, p, e)
      && (p > 0 ==> h.hash(before[p - 1].key) % capacity < h.hash(e.key) % capacity)
  }

  twostate lemma ContentsKept<K(!new), V>(s: seq<Node<K, V>>)
    requires forall n :: n in s ==> n.key == old(n.key) && n.item == old(n.item)
    ensures Contents(s) == old(Contents(s))
  {
  }

  lemma ContentsInserted<K(!new), V>(s: seq<Node<K, V>>, p: nat, node: Node<K, V>)
    requires p <= |s|
    ensures Contents(Inserted(s, p, node)) == Inserted(Contents(s), p, Entry(node.item, node.key))
  {
  }

  lemma InPlaceAfterPush<K(!new), V>(n: Node<K, V>, owner: object, chains: seq<seq<Node<K, V>>>, b: nat,
          node: Node<K, V>)
    requires b < |chains| && InPlace(n, owner, chains)
    ensures InPlace(n, owner, chains[b := chains[b] + [node]])
  {
  }

  lemma InPlaceAfterPop<K(!new), V>(n: Node<K, V>, owner: object, chains: seq<seq<Node<K, V>>>, b: nat)
    requires b < |chains| && chains[b] != [] && n != Top(chains[b]) && InPlace(n, owner, chains)
    ensures InPlace(n, owner, chains[b := chains[b][..|chains[b]| - 1]])
  {
  }

  /** The nodes of `s` whose keys belong in bucket `b`, in the order of `s`. */
  ghost function Selected<K(!new), V>(h: Hashing<K>, capacity: int, b: int, s: seq<Node<K, V>>): seq<Node<K, V>>
    requires 0 < capacity
    reads s`key
  {
    if s == [] then []
    else
      var n := s[|s| - 1];
      Selected(h, capacity, b, s[..|s| - 1]) + if h.hash(n.key) % capacity == b then [n] else []
  }

  /**
   The chains after growth: each has, from its end up, the nodes whose hashes select its bucket, in the order of the
   scan over the old chains, from the last one down and each from its head.
   */
  ghost function Regrown<K(!new), V>(h: Hashing<K>, capacity: nat, chains: seq<seq<Node<K, V>>>)
    : seq<seq<Node<K, V>>>
    requires 0 < capacity
    reads ScannedDown(chains, 0)`key
  {
    RegrownTo(h, capacity, ScannedDown(chains, 0), capacity)
  }

  ghost function RegrownTo<K(!new), V>(h: Hashing<K>, capacity: nat, scanned: seq<Node<K, V>>, n: nat)
    : (r: seq<seq<Node<K, V>>>)
    requires 0 < capacity
    ensures |r| == n && forall b :: 0 <= b < n ==> r[b] == Selected(h, capacity, b, scanned)
    reads scanned`key
  {
    if n == 0 then [] else RegrownTo(h, capacity, scanned, n - 1) + [Selected(h, capacity, n - 1, scanned)]
  }

  lemma SelectedNext<K(!new), V>(h: Hashing<K>, capacity: int, b: int, s: seq<Node<K, V>>, n: Node<K, V>)
    requires 0 < capacity
    ensures Selected(h, capacity, b, s + [n]) ==
      Selected(h, capacity, b, s) + if h.hash(n.key) % capacity == b then [n] else []
  {
    assert (s + [n])[..|s|] == s;
  }

  /** The node at `p`, when it is selected, comes behind those selected from what is before it. */
  lemma {:induction false} SelectedAt<K(!new), V>(h: Hashing<K>, capacity: int, b: int, s: seq<Node<K, V>>, p: nat)
    requires 0 < capacity && p < |s| && h.hash(s[p].key) % capacity == b
    ensures var d := |Selected(h, capacity, b, s[..p])|;
      d < |Selected(h, capacity, b, s[..p + 1])| <= |Selected(h, capacity, b, s)| &&
      Selected(h, capacity, b, s)[d] == s[p]
  {
    var last := |s| - 1;
    if p < last {
      SelectedAt(h, capacity, b, s[..last], p);
      assert s[..last][..p] == s[..p] && s[..last][..p + 1] == s[..p + 1];
    } else {
      assert s[..p + 1] == s;
    }
  }

  lemma {:induction false} SelectedGrows<K(!new), V>(h: Hashing<K>, capacity: int, b: int, s: seq<Node<K, V>>,
      p: nat, q: nat)
    requires 0 < capacity && p <= q <= |s|
    ensures |Selected(h, capacity, b, s[..p])| <= |Selected(h, capacity, b, s[..q])|
  {
    if p < q {
      SelectedGrows(h, capacity, b, s, p, q - 1);
      assert s[..q][..q - 1] == s[..q - 1];
    }
  }

  /**
   The order inside a bucket after growth, head first: nodes from different old buckets keep the order of those buckets,
   nodes from the same one are reversed. Node `j` of chain `c`, counted from its end, here comes behind node `j'` of
   chain `c'`, because it is put in front of the new chain earlier.
   */
  lemma RegrownOrder<K(!new), V>(h: Hashing<K>, capacity: nat, chains: seq<seq<Node<K, V>>>,
      c: nat, j: nat, c': nat, j': nat)
    returns (d: nat, d': nat)
    requires 0 < capacity && c' <= c < |chains| && j < |chains[c]| && j' < |chains[c']| && (c' == c ==> j' < j)
    requires h.hash(chains[c][j].key) % capacity == h.hash(chains[c'][j'].key) % capacity
    ensures var b := h.hash(chains[c][j].key) % capacity;
      && d < d' < |Regrown(h, capacity, chains)[b]|
      && Regrown(h, capacity, chains)[b][d] == chains[c][j] && Regrown(h, capacity, chains)[b][d'] == chains[c'][j']
  {
    hide Selected, ScannedDown;
    var b, s := h.hash(chains[c][j].key) % capacity, ScannedDown(chains, 0);
    var p := ScannedAt(chains, 0, c, j);
    var p' := ScannedAt(chains, 0, c', j');
    if c' < c {
      ScannedLength(chains, c' + 1, c);
      ScannedStep(chains, c);
    }
    SelectedAt(h, capacity, b, s, p);
    SelectedAt(h, capacity, b, s, p');
    SelectedGrows(h, capacity, b, s, p + 1, p');
    d, d' := |Selected(h, capacity, b, s[..p])|, |Selected(h, capacity, b, s[..p'])|;
  }

  lemma {:induction false} SelectedJoined<K(!new), V>(h: Hashing<K>, capacity: int, b: int, s: seq<Node<K, V>>,
      t: seq<Node<K, V>>)
    requires 0 < capacity
    ensures Selected(h, capacity, b, s + t) == Selected(h, capacity, b, s) + Selected(h, capacity, b, t)
  {
    if t == [] {
      assert s + t == s;
    } else {
      var n, u := t[|t| - 1], t[..|t| - 1];
      SelectedJoined(h, capacity, b, s, u);
      assert s + t == (s + u) + [n] && t == u + [n];
      SelectedNext(h, capacity, b, s + u, n);
    }
  }

  /** The nodes of `moved` were put one by one in front of the chains that their hashes select. */
  ghost predicate Pushed<K(!new), V>(h: Hashing<K>, before: seq<seq<Node<K, V>>>, moved: seq<Node<K, V>>,
      after: seq<seq<Node<K, V>>>)
    reads moved`key
  {
    && 0 < |before| == |after|
    && forall b :: 0 <= b < |before| ==> after[b] == before[b] + Selected(h, |before|, b, moved)
  }

  lemma PushedNone<K(!new), V>(h: Hashing<K>, before: seq<seq<Node<K, V>>>)
    requires before != []
    ensures Pushed(h, before, [], before)
  {
  }

  lemma PushedOne<K(!new), V>(h: Hashing<K>, before: seq<seq<Node<K, V>>>, moved: seq<Node<K, V>>,
      chains: seq<seq<Node<K, V>>>, b: nat, node: Node<K, V>)
    requires Pushed(h, before, moved, chains) && b == h.hash(node.key) % |before|
    ensures Pushed(h, before, moved + [node], chains[b := chains[b] + [node]])
  {
    hide Selected;
    forall c | 0 <= c < |before|
      ensures chains[b := chains[b] + [node]][c] == before[c] + Selected(h, |before|, c, moved + [node])
    {
      SelectedNext(h, |before|, c, moved, node);
    }
  }

  lemma PushedMore<K(!new), V>(h: Hashing<K>, before: seq<seq<Node<K, V>>>, moved: seq<Node<K, V>>,
      chains: seq<seq<Node<K, V>>>, more: seq<Node<K, V>>, after: seq<seq<Node<K, V>>>)
    requires Pushed(h, before, moved, chains) && Pushed(h, chains, more, after)
    ensures Pushed(h, before, moved + more, after)
  {
    hide Selected;
    forall c | 0 <= c < |before| ensures after[c] == before[c] + Selected(h, |before|, c, moved + more) {
      SelectedJoined(h, |before|, c, moved, more);
    }
  }

  lemma PushedFromNothing<K(!new), V>(h: Hashing<K>, empty: seq<seq<Node<K, V>>>, chains: seq<seq<Node<K, V>>>,
      after: seq<seq<Node<K, V>>>)
    requires Pushed(h, empty, ScannedDown(chains, 0), after) && forall b :: 0 <= b < |empty| ==> empty[b] == []
    ensures after == Regrown(h, |empty|, chains)
  {
    hide Selected;
    assert forall b :: 0 <= b < |empty| ==> after[b] == Regrown(h, |empty|, chains)[b];
  }

  lemma ReversedOn<T>(done: seq<T>, left: seq<T>)
    ensures left == [] ==> done + Reversed(left) == done
    ensures left != [] ==>
      (done + [left[|left| - 1]]) + Reversed(left[..|left| - 1]) == done + Reversed(left)
  {
    if left != [] {
      assert Reversed(left) == [left[|left| - 1]] + Reversed(left[..|left| - 1]);
    }
  }

  lemma {:induction false} EnumeratedAreIn<K(!new), V>(chains: seq<seq<Node<K, V>>>, b: nat, nodes: set<Node<K, V>>)
    requires b <= |chains| && forall c, j :: 0 <= c < |chains| && 0 <= j < |chains[c]| ==> chains[c][j] in nodes
    ensures forall n :: n in Enumerate(chains, b) ==> n in nodes
  {
    if b > 0 {
      EnumeratedAreIn(chains, b - 1, nodes);
    }
  }

  lemma HeldAreIn<K(!new), V>(owner: object, chains: seq<seq<Node<K, V>>>, nodes: set<Node<K, V>>)
    requires Holds(owner, chains, nodes)
    ensures forall b, j :: 0 <= b < |chains| && 0 <= j < |chains[b]| ==> chains[b][j] in nodes
  {
  }

  lemma {:induction false} ScannedAreIn<K(!new), V>(chains: seq<seq<Node<K, V>>>, i: nat, nodes: set<Node<K, V>>)
    requires i <= |chains| && forall b, j :: 0 <= b < |chains| && 0 <= j < |chains[b]| ==> chains[b][j] in nodes
    ensures forall n :: n in ScannedDown(chains, i) ==> n in nodes
    decreases |chains| - i
  {
    if i < |chains| {
      ScannedAreIn(chains, i + 1, nodes);
    }
  }

  /** Every link of the row belongs to `nodes` and carries its own position. */
  ghost predicate Holds<K(!new), V>(owner: object, chains: seq<seq<Node<K, V>>>, nodes: set<Node<K, V>>)
    reads nodes`owner, nodes`slot, nodes`depth
  {
    forall b, j :: 0 <= b < |chains| && 0 <= j < |chains[b]| ==>
      var n := chains[b][j];
      n in nodes && n.owner == owner && n.slot == b && n.depth == j
  }

  /** The free list that all tables of one type share, through one reference cell. */
  class Pool<K(!new), V> {
    var first: Node?<K, V>
    ghost var free: seq<Node<K, V>>
    /** How many nodes were ever allocated on behalf of this pool. */
    ghost var created: nat

    ghost predicate Valid()
      reads this, free`owner, free`depth, free`next
    {
      && first == Top(free)
      && (forall j :: 0 <= j < |free| ==> free[j].owner == this && free[j].depth == j)
      && (forall j {:trigger free[j].next} :: 0 <= j < |free| ==> free[j].next == Below(free, j))
    }

    constructor ()
      ensures Valid() && free == [] && created == 0
    {
      first, free, created := null, [], 0;
    }

    /** Takes a node off the free list, or allocates one when the list is empty. */
    method NewNode(v: V, k: K, next: Node?<K, V>) returns (node: Node<K, V>)
      requires Valid()
      modifies this, free
      ensures Valid()
      ensures node.item == v && node.key == k && node.next == next
      ensures if old(free) == []
              then fresh(node) && free == [] && created == old(created) + 1
              else node == old(first) && free == old(free)[..|old(free)| - 1] && created == old(created)
      ensures forall n :: n in free ==> n != node && n.item == old(n.item) && n.key == old(n.key)
    {
      var top := first;
      if top == null {
        node := new Node(v, k, next);
        created := created + 1;
      } else {
        node := top;
        first := top.next;
        node.Make(v, k, next);
        free := free[..|free| - 1];
      }
    }

    /** Puts a node that has left its chain on the free list, cleared, and returns the node that followed it. */
    method DisposeNode(node: Node<K, V>, blankItem: V, blankKey: K) returns (next: Node?<K, V>)
      requires Valid() && node !in free
      modifies this, node
      ensures Valid() && free == old(free) + [node] && created == old(created)
      ensures next == old(node.next) && node.item == blankItem && node.key == blankKey
    {
      next := node.next;
      node.Make(blankItem, blankKey, first);
      first := node;
      node.owner, node.slot, node.depth := this, 0, |free|;
      free := free + [node];
    }

    /** Disposes of a detached chain, given from its end to its head. */
    method DisposeChain(head: Node?<K, V>, ghost chain: seq<Node<K, V>>, blankItem: V, blankKey: K)
      requires Valid() && head == Top(chain)
      requires forall j :: 0 <= j < |chain| ==> chain[j] !in free && chain[j].depth == j
      requires forall j {:trigger chain[j].next} :: 0 <= j < |chain| ==> chain[j].next == Below(chain, j)
      modifies this, chain
      ensures Valid() && created == old(created) && |free| == old(|free|) + |chain|
      ensures forall n :: n in free ==> n in old(free) || n in chain
    {
      var node := head;
      ghost var d := |chain|;
      while node != null
        invariant 0 <= d <= |chain| && node == if d == 0 then null else chain[d - 1]
        invariant Valid() && created == old(created) && |free| == old(|free|) + |chain| - d
        invariant forall n :: n in free ==> n in old(free) || n in chain[d..]
        invariant forall j :: 0 <= j < d ==> chain[j] !in free && chain[j].depth == j
        invariant forall j {:trigger chain[j].next} :: 0 <= j < d ==> chain[j].next == Below(chain, j)
        decreases d
      {
        node := DisposeNode(node, blankItem, blankKey);
        d := d - 1;
      }
    }
  }

  class HashTable<K(==,!new), V> {
    const hashing: Hashing<K>
    var buckets: array<Node?<K, V>>
    var capacity: int32
    var count: int
    var generation: int
    var cacheUser: int
    var cacheNode: Node?<K, V>
    var cacheBuckets: int
    var freeNodes: Pool?<K, V>
    /** Chain `b`, listed from its end up to `buckets[b]`. */
    ghost var chains: seq<seq<Node<K, V>>>
    ghost var nodes: set<Node<K, V>>
    /** The node that stores each key. */
    ghost var nodeOf: map<K, Node<K, V>>

    /** A zero-initialised object, not yet created by `make` or `with_capacity`. */
    constructor (h: Hashing<K>)
      ensures hashing == h && freeNodes == null && fresh(buckets) && nodes == {}
    {
      hashing := h;
      buckets := new Node?<K, V>[0];
      capacity, count, generation := 0, 0, 0;
      cacheUser, cacheNode, cacheBuckets := 0, null, 0;
      freeNodes := null;
      chains, nodes, nodeOf := [], {}, map[];
    }

    ghost predicate HeadsAgree()
      reads `buckets, `chains, buckets
    {
      && buckets.Length == |chains|
      && forall b :: 0 <= b < |chains| ==> buckets[b] == Top(chains[b])
    }

    /** The chains are proper linked lists, disjoint from each other. */
    ghost predicate Linked()
      reads `buckets, `chains, `capacity, `nodes, buckets, nodes`owner, nodes`slot, nodes`depth, nodes`next
    {
      && 0 < capacity == buckets.Length
      && HeadsAgree()
      && Holds(buckets, chains, nodes)
      && forall n {:trigger InPlace(n, buckets, chains)} :: n in nodes ==> InPlace(n, buckets, chains)
    }

    /** A node sits in the chain its hash code selects, and is the one node for its key. */
    ghost predicate Keyed(n: Node<K, V>)
      reads `capacity, `nodeOf, n`slot, n`key
    {
      0 < capacity && n.slot == hashing.Slot(n.key, capacity) && n.key in nodeOf && nodeOf[n.key] == n
    }

    ghost predicate Indexed()
      reads `capacity, `nodeOf, `nodes, nodes`slot, nodes`key
    {
      && (forall n {:trigger Keyed(n)} :: n in nodes ==> Keyed(n))
      && (forall k :: k in nodeOf ==> nodeOf[k] in nodes && nodeOf[k].key == k)
    }

    /** The load never exceeds the growth threshold by more than the node just added. */
    ghost predicate LoadBounded()
      reads `capacity, `count, `nodeOf, `chains
    {
      && 0 <= count == |nodeOf| == Total(chains)
      && LoadOk(capacity, count)
    }

    /** The cursor is off, or stands on the node whose rank it records. */
    ghost predicate CursorOk()
      reads `cacheUser, `cacheNode, `cacheBuckets, `nodes, `buckets, `chains
      reads nodes`owner, nodes`slot, nodes`depth, nodes`next
    {
      cacheUser == -1 ||
      (1 <= cacheUser && cacheNode != null && cacheNode in nodes &&
       cacheBuckets == cacheNode.slot && InPlace(cacheNode, buckets, chains) &&
       Position(chains, cacheNode.slot, cacheNode.depth) == cacheUser - 1)
    }

    ghost predicate Valid()
      reads `freeNodes, `buckets, `chains, `capacity, `nodes, `nodeOf, `count, `cacheUser, `cacheNode, `cacheBuckets
      reads buckets, nodes`owner, nodes`slot, nodes`depth, nodes`next, nodes`key
    {
      freeNodes != null && hashing.Lawful() && Linked() && Indexed() && LoadBounded() && CursorOk()
    }

    /** The key objects that are stored. */
    ghost function Keys(): set<K>
      reads `nodeOf
    {
      nodeOf.Keys
    }

    /** The abstract value: each stored key with its item. */
    ghost function View(): (m: map<K, V>)
      requires Indexed()
      ensures m.Keys == Keys()
      reads `capacity, `nodeOf, `nodes, nodes`slot, nodes`key, nodes`item
    {
      map k | k in nodeOf :: nodeOf[k].item
    }

    /** Walks the chain of `k` to the first node with an equal key. */
    method Find(k: K) returns (node: Node?<K, V>)
      requires Valid()
      ensures node == null ==> forall x :: x in nodeOf ==> !hashing.Same(x, k)
      ensures node != null ==> node in nodes && hashing.Same(node.key, k)
    {
      var idx := hashing.Slot(k, capacity);
      node := buckets[idx];
      ghost var d := |chains[idx]|;
      while node != null && !hashing.Same(node.key, k)
        invariant 0 <= d <= |chains[idx]|
        invariant node == if d == 0 then null else chains[idx][d - 1]
        invariant forall j :: d <= j < |chains[idx]| ==> !hashing.Same(chains[idx][j].key, k)
        decreases d
      {
        assert InPlace(node, buckets, chains);
        node := node.next;
        d := d - 1;
      }
      if node == null {
        forall x | x in nodeOf ensures !hashing.Same(x, k) {
          hashing.SameSlot(x, k, capacity);
          assert Keyed(nodeOf[x]) && InPlace(nodeOf[x], buckets, chains);
        }
      }
    }

    /** The same walk with identity in place of equality. */
    method FastFind(k: K) returns (node: Node?<K, V>)
      requires Valid()
      ensures node == null <==> k !in nodeOf
      ensures node != null ==> node == nodeOf[k]
    {
      var idx := hashing.Slot(k, capacity);
      node := buckets[idx];
      ghost var d := |chains[idx]|;
      while node != null && node.key != k
        invariant 0 <= d <= |chains[idx]|
        invariant node == if d == 0 then null else chains[idx][d - 1]
        invariant forall j :: d <= j < |chains[idx]| ==> chains[idx][j].key != k
        decreases d
      {
        assert InPlace(node, buckets, chains);
        node := node.next;
        d := d - 1;
      }
      if node != null {
        assert Keyed(node);
      }
      assert k in nodeOf ==> Keyed(nodeOf[k]) && InPlace(nodeOf[k], buckets, chains);
    }

    /** A node is still in its old chain, or already in the new chain its hash code selects. */
    ghost predicate Settled(n: Node<K, V>, from: object, rest: seq<seq<Node<K, V>>>)
      requires 0 < capacity
      reads this, n
    {
      InPlace(n, from, rest) || (InPlace(n, buckets, chains) && n.slot == hashing.Slot(n.key, capacity))
    }

    /** Some nodes are already in the new chains, the others still in the old ones. */
    ghost predicate Migrating(from: object, rest: seq<seq<Node<K, V>>>)
      reads this, nodes, buckets
    {
      && from != buckets
      && 0 < capacity == buckets.Length
      && HeadsAgree()
      && Holds(buckets, chains, nodes)
      && Holds(from, rest, nodes)
      && forall n {:trigger Settled(n, from, rest)} :: n in nodes ==> Settled(n, from, rest)
    }

    /** One step of the rehash: the head of old chain `i` moves to the front of its new chain. */
    method Relink(node: Node<K, V>, ghost i: nat, ghost from: object, ghost rest: seq<seq<Node<K, V>>>)
      returns (ghost b: nat)
      requires Migrating(from, rest)
      requires i < |rest| && rest[i] != [] && node == Top(rest[i])
      modifies node`next, node`owner, node`slot, node`depth, buckets, `chains
      ensures Migrating(from, rest[i := rest[i][..|rest[i]| - 1]])
      ensures b == hashing.hash(node.key) % capacity && b < |old(chains)|
      ensures chains == old(chains)[b := old(chains)[b] + [node]]
    {
      hashing.SlotIs(node.key, capacity);
      hide Hashing.Slot;
      var idx := hashing.Slot(node.key, capacity);
      assert Settled(node, from, rest);
      b := idx;
      node.next := buckets[idx];
      buckets[idx] := node;
      node.owner, node.slot, node.depth := buckets, idx, |chains[idx]|;
      chains := chains[idx := chains[idx] + [node]];
      ghost var rest' := rest[i := rest[i][..|rest[i]| - 1]];
      assert Holds(buckets, chains, nodes);
      assert Holds(from, rest', nodes);
      forall n {:trigger Settled(n, from, rest')} | n in nodes ensures Settled(n, from, rest') {
        hide Holds;
        if n != node {
          assert old(Settled(n, from, rest));
          if InPlace(n, from, rest) {
            InPlaceAfterPop(n, from, rest, i);
          } else {
            InPlaceAfterPush(n, buckets, old(chains), b, node);
          }
        }
      }
    }

    /** One turn of the inner loop: the head of what is left of old chain `i` moves, and its successor is returned. */
    method RelinkHead(node1: Node<K, V>, ghost i: nat, ghost from: object, ghost rest: seq<seq<Node<K, V>>>,
        ghost before: seq<seq<Node<K, V>>>, ghost done: seq<Node<K, V>>)
      returns (node2: Node?<K, V>)
      requires Migrating(from, rest) && i < |rest| && rest[i] != [] && node1 == Top(rest[i])
      requires Pushed(hashing, before, done, chains)
      modifies nodes`next, nodes`owner, nodes`slot, nodes`depth, buckets, `chains
      ensures Migrating(from, rest[i := rest[i][..|rest[i]| - 1]]) && node2 == Top(rest[i][..|rest[i]| - 1])
      ensures Total(chains) == old(Total(chains)) + 1
      ensures Pushed(hashing, before, done + [node1], chains)
    {
      assert |before| == capacity;
      hide Hashing.Slot, Before, Pushed;
      assert Settled(node1, from, rest);
      node2 := node1.next;
      ghost var filled := chains;
      ghost var b := Relink(node1, i, from, rest);
      BeforeUpdated(filled, b, chains[b], |filled|);
      PushedOne(hashing, before, done, filled, b, node1);
    }

    /** Moves all nodes of old chain `i`, whose head is given. */
    method RelinkChain(head: Node?<K, V>, ghost i: nat, ghost from: object, ghost rest: seq<seq<Node<K, V>>>)
      requires Migrating(from, rest) && i < |rest| && head == Top(rest[i])
      modifies nodes`next, nodes`owner, nodes`slot, nodes`depth, buckets, `chains
      ensures Migrating(from, rest[i := []]) && Total(chains) == old(Total(chains)) + |rest[i]|
      ensures Pushed(hashing, old(chains), Reversed(rest[i]), chains)
    {
      assert 0 < capacity == |chains|;
      hide Before, Pushed, Reversed, Holds, Settled, HeadsAgree;
      var node1 := head;
      ghost var left: seq<Node<K, V>>, done: seq<Node<K, V>> := rest[i], [];
      assert rest[i := left] == rest;
      PushedNone(hashing, chains);
      while node1 != null
        invariant node1 == Top(left)
        invariant Migrating(from, rest[i := left])
        invariant Total(chains) + |left| == old(Total(chains)) + |rest[i]|
        invariant done + Reversed(left) == Reversed(rest[i])
        invariant Pushed(hashing, old(chains), done, chains)
        decreases |left|
      {
        ghost var less := left[..|left| - 1];
        assert rest[i := left][i := less] == rest[i := less];
        ReversedOn(done, left);
        ghost var top := node1;
        node1 := RelinkHead(node1, i, from, rest[i := left], old(chains), done);
        left, done := less, done + [top];
      }
      ReversedOn(done, left);
    }

    /** The scan over the old buckets, from the last to the first. */
    method RelinkAll(oldBuckets: array<Node?<K, V>>, ghost rest: seq<seq<Node<K, V>>>)
      requires Migrating(oldBuckets, rest) && |rest| == oldBuckets.Length
      requires forall b :: 0 <= b < |rest| ==> oldBuckets[b] == Top(rest[b])
      modifies nodes`next, nodes`owner, nodes`slot, nodes`depth, buckets, `chains
      ensures Migrating(oldBuckets, seq(|rest|, _ => []))
      ensures Total(chains) == old(Total(chains)) + Total(rest)
      ensures Pushed(hashing, old(chains), ScannedDown(rest, 0), chains)
    {
      hide Hashing.Slot, Before, Pushed, Holds;
      var i := oldBuckets.Length - 1;
      ghost var left := rest;
      HeldAreIn(oldBuckets, rest, nodes);
      PushedNone(hashing, chains);
      while i >= 0
        invariant -1 <= i < |left| == |rest|
        invariant Migrating(oldBuckets, left)
        invariant forall b :: 0 <= b <= i ==> left[b] == rest[b]
        invariant forall b :: i < b < |rest| ==> left[b] == []
        invariant Total(chains) + Total(left) == old(Total(chains)) + Total(rest)
        invariant Pushed(hashing, old(chains), ScannedDown(rest, i + 1), chains)
      {
        BeforeUpdated(left, i, [], |left|);
        ScannedAreIn(rest, i + 1, nodes);
        ghost var filled := chains;
        label L:
        RelinkChain(oldBuckets[i], i, oldBuckets, left);
        assert forall n :: n in ScannedDown(rest, i + 1) ==> n.key == old@L(n.key);
        PushedMore(hashing, old(chains), ScannedDown(rest, i + 1), filled, Reversed(rest[i]), chains);
        left := left[i := []];
        i := i - 1;
      }
      BeforeOfEmpty(left, |left|);
      assert left == seq(|rest|, _ => []);
    }

    lemma MigrationDone(from: object, rest: seq<seq<Node<K, V>>>)
      requires Migrating(from, rest) && forall b :: 0 <= b < |rest| ==> rest[b] == []
      requires forall n :: n in nodes ==> n.key in nodeOf && nodeOf[n.key] == n
      requires forall k :: k in nodeOf ==> nodeOf[k] in nodes && nodeOf[k].key == k
      ensures Linked() && Indexed()
    {
      hide Hashing.Slot;
      forall n {:trigger InPlace(n, buckets, chains)} | n in nodes ensures InPlace(n, buckets, chains) {
        assert Settled(n, from, rest);
      }
      forall n {:trigger Keyed(n)} | n in nodes ensures Keyed(n) {
        assert Settled(n, from, rest);
      }
    }

    /** Installs an empty, larger bucket array. */
    method BeginMigration(newCapacity: int32)
      requires Linked() && 0 < newCapacity
      modifies `buckets, `chains, `capacity, `cacheUser
      ensures Migrating(old(buckets), old(chains)) && Total(chains) == 0
      ensures |chains| == newCapacity && forall b :: 0 <= b < newCapacity ==> chains[b] == []
      ensures fresh(buckets) && capacity == newCapacity && cacheUser == -1
    {
      ghost var from, rest := buckets, chains;
      buckets := new Node?<K, V>[newCapacity](_ => null);
      chains := seq(newCapacity, _ => []);
      capacity := newCapacity;
      cacheUser := -1;
      BeforeOfEmpty(chains, |chains|);
      forall n {:trigger Settled(n, from, rest)} | n in nodes ensures Settled(n, from, rest) {
        assert old(InPlace(n, buckets, chains));
      }
    }

    /** Relinks every node into a larger bucket array. */
    method Migrate(newCapacity: int32)
      requires Linked() && Indexed() && 0 < newCapacity
      modifies `buckets, `chains, `capacity, `cacheUser, nodes`next, nodes`owner, nodes`slot, nodes`depth
      ensures fresh(buckets) && Linked() && Indexed() && capacity == newCapacity && cacheUser == -1
      ensures Total(chains) == old(Total(chains)) && chains == old(Regrown(hashing, newCapacity, chains))
    {
      hide Hashing.Slot, Before, Pushed, Regrown;
      var oldBuckets := buckets;
      ghost var rest := chains;
      HeldAreIn(buckets, rest, nodes);
      ScannedAreIn(rest, 0, nodes);
      BeginMigration(newCapacity);
      ghost var empty := chains;
      RelinkAll(oldBuckets, rest);
      forall n | n in nodes ensures n.key in nodeOf && nodeOf[n.key] == n {
        assert old(Keyed(n));
      }
      MigrationDone(oldBuckets, seq(|rest|, _ => []));
      PushedFromNothing(hashing, empty, rest, chains);
      assert forall n: Node<K, V> :: n in ScannedDown(rest, 0) ==> n.key == old(n.key);
    }

    lemma SlotsAreHashes()
      requires Linked() && Indexed()
      ensures 0 < capacity == |chains| && forall n :: n in nodes ==> n.slot == hashing.hash(n.key) % capacity
    {
      hide Holds, InPlace, Hashing.Slot;
      forall n | n in nodes ensures n.slot == hashing.hash(n.key) % capacity {
        assert Keyed(n);
        hashing.SlotIs(n.key, capacity);
      }
    }

    /** Growth of a table: all nodes are in the buckets that their hashes select modulo the new capacity. */
    method IncreaseCapacity()
      requires Valid() && ShouldIncreaseCapacity(capacity, count)
      modifies `buckets, `chains, `capacity, `cacheUser, nodes`next, nodes`owner, nodes`slot, nodes`depth
      ensures fresh(buckets) && Linked() && Indexed()
      ensures capacity == PrimeCapacity(old(capacity) + 1) && Total(chains) == count && cacheUser == -1
      ensures 0 < capacity == |chains| && forall n :: n in nodes ==> n.slot == hashing.hash(n.key) % capacity
      ensures chains == old(Regrown(hashing, PrimeCapacity(capacity + 1), chains))
    {
      hide Linked, Indexed, Hashing.Slot, Hashing.Lawful, Before, Regrown;
      Migrate(PrimeCapacity(capacity + 1));
      SlotsAreHashes();
    }

    /** Makes a node that is in no chain yet the head of chain `idx`. */
    method Attach(node: Node<K, V>, idx: nat)
      requires Linked() && Indexed() && node !in nodes && node.key !in nodeOf
      requires idx == hashing.Slot(node.key, capacity) && node.next == buckets[idx]
      modifies `chains, `nodes, `nodeOf, `count, buckets, node`owner, node`slot, node`depth
      ensures Linked() && Indexed()
      ensures nodeOf == old(nodeOf)[node.key := node] && nodes == old(nodes) + {node}
      ensures count == old(count) + 1
      ensures chains == old(chains)[idx := old(chains)[idx] + [node]]
    {
      hide Hashing.Slot;
      node.owner, node.slot, node.depth := buckets, idx, |chains[idx]|;
      buckets[idx] := node;
      chains := chains[idx := chains[idx] + [node]];
      nodes := nodes + {node};
      nodeOf := nodeOf[node.key := node];
      count := count + 1;
      assert Linked() by {
        AttachedInPlace(node, idx);
      }
      hide Linked;
      forall n {:trigger Keyed(n)} | n in nodes ensures Keyed(n) {
        if n != node {
          assert old(Keyed(n));
        }
      }
    }

    /** The chains after a node was put in front of chain `idx`. */
    twostate lemma AttachedInPlace(new node: Node<K, V>, idx: nat)
      requires old(Linked()) && idx < old(|chains|) && node !in old(nodes)
      requires buckets == old(buckets) && capacity == old(capacity) && nodes == old(nodes) + {node}
      requires chains == old(chains)[idx := old(chains)[idx] + [node]]
      requires node.next == old(buckets[idx]) && node.owner == buckets && node.slot == idx
      requires node.depth == |old(chains)[idx]|
      requires buckets[..] == old(buckets[..])[idx := node]
      requires forall n :: n in old(nodes) ==> unchanged(n)
      ensures Linked()
    {
      assert Holds(buckets, chains, nodes);
      forall n {:trigger InPlace(n, buckets, chains)} | n in nodes ensures InPlace(n, buckets, chains) {
        hide Holds;
        if n != node {
          assert old(InPlace(n, buckets, chains));
          InPlaceAfterPush(n, buckets, old(chains), idx, node);
        }
      }
    }

    /** The chains are those of `base` with the node of `k` in front of the chain that its hash selects. */
    ghost predicate AtFront(base: seq<seq<Node<K, V>>>, k: K)
      reads `chains, `nodeOf, `capacity
    {
      && 0 < capacity == |base| && k in nodeOf
      && chains == base[hashing.hash(k) % capacity := base[hashing.hash(k) % capacity] + [nodeOf[k]]]
    }

    /** Puts a new node for `k` in front of its chain. */
    method PushFront(v: V, k: K)
      requires Linked() && Indexed() && k !in nodeOf
      requires freeNodes != null && freeNodes.Valid()
      modifies `chains, `nodes, `nodeOf, `count, buckets, freeNodes, freeNodes.free
      ensures Linked() && Indexed() && freeNodes.Valid()
      ensures View() == old(View())[k := v]
      ensures k in nodeOf && nodeOf == old(nodeOf)[k := nodeOf[k]]
      ensures nodes == old(nodes) + {nodeOf[k]} && nodeOf[k] !in old(nodes)
      ensures nodeOf[k] in old(freeNodes.free) || fresh(nodeOf[k])
      ensures count == old(count) + 1 && Total(chains) == old(Total(chains)) + 1
      ensures freeNodes.created - |freeNodes.free| == old(freeNodes.created - |freeNodes.free|) + 1
      ensures freeNodes.free <= old(freeNodes.free)
      ensures forall n :: n in old(nodes) ==> n.key == old(n.key) && n.item == old(n.item)
      ensures AtFront(old(chains), k)
    {
      hide AtFront, Hashing.Slot, Before, Holds, InPlace, Keyed, View;
      var idx := hashing.Slot(k, capacity);
      ApartFromPool();
      var node := freeNodes.NewNode(v, k, buckets[idx]);
      BeforeUpdated(chains, idx, chains[idx] + [node], |chains|);
      Attach(node, idx);
      ViewGains(node);
      IsAtFront(old(chains), node);
    }

    lemma IsAtFront(base: seq<seq<Node<K, V>>>, node: Node<K, V>)
      requires 0 < capacity == |base| && node.key in nodeOf && nodeOf[node.key] == node
      requires var b := hashing.Slot(node.key, capacity); chains == base[b := base[b] + [node]]
      ensures AtFront(base, node.key)
    {
      hashing.SlotIs(node.key, capacity);
    }

    twostate lemma ViewGains(new node: Node<K, V>)
      requires old(Indexed()) && Indexed() && nodeOf == old(nodeOf)[node.key := node]
      requires forall n :: n in old(nodes) ==> n.item == old(n.item)
      ensures View() == old(View())[node.key := node.item]
    {
      hide Keyed;
    }

    lemma ViewOf(node: Node<K, V>)
      requires Indexed() && node in nodes
      ensures node.key in View() && View()[node.key] == node.item
    {
      assert Keyed(node);
    }

    /** No node is both in a chain and on the free list. */
    lemma ApartFromPool()
      requires Linked() && freeNodes != null && freeNodes.Valid()
      ensures forall n :: n in nodes ==> n !in freeNodes.free
    {
      assert forall n :: n in nodes ==> InPlace(n, buckets, chains);
    }

    /** The chains that a new node is put in front of: those that are there, or what growth makes of them. */
    ghost function WithRoom(): seq<seq<Node<K, V>>>
      requires 0 <= capacity
      reads `capacity, `count, `chains, ScannedDown(chains, 0)`key
    {
      if ShouldIncreaseCapacity(capacity, count) then Regrown(hashing, PrimeCapacity(capacity + 1), chains) else chains
    }

    lemma RoomWithoutGrowth()
      requires 0 <= capacity && !ShouldIncreaseCapacity(capacity, count)
      ensures WithRoom() == chains
    {
    }

    /** Grows when the table is full; either way there is now room for one more node. */
    method MakeRoom()
      requires Valid() && freeNodes.Valid()
      modifies `buckets, `chains, `capacity, `cacheUser, nodes`next, nodes`owner, nodes`slot, nodes`depth
      ensures Linked() && Indexed() && freeNodes.Valid()
      ensures View() == old(View()) && count == |nodeOf| == Total(chains)
      ensures capacity ==
        if old(ShouldIncreaseCapacity(capacity, count)) then PrimeCapacity(old(capacity) + 1) else old(capacity)
      ensures LoadOk(capacity, count + 1)
      ensures buckets == old(buckets) || fresh(buckets)
      ensures chains == old(WithRoom())
    {
      hide Regrown, Before, Holds, InPlace, Hashing.Slot, Hashing.Lawful, Keyed, PrimeCapacity, Pool.Valid;
      hide HeadsAgree, CursorOk;
      ApartFromPool();
      if ShouldIncreaseCapacity(capacity, count) {
        GrowthLeavesRoom(capacity);
        IncreaseCapacity();
      }
    }

    /**
     What an operation leaves to the other tables of the pool: this table's nodes were its own, came off the
     free list or are new; and nodes allocated still balance nodes free plus nodes stored.
     */
    twostate predicate Confined()
      requires old(freeNodes) != null && freeNodes != null
      reads `freeNodes, `buckets, `nodes, `count, freeNodes
    {
      && freeNodes == old(freeNodes)
      && (buckets == old(buckets) || fresh(buckets))
      && (forall n :: n in nodes ==> n in old(nodes) || n in old(freeNodes.free) || fresh(n))
      && (forall n :: n in freeNodes.free ==> n in old(nodes) || n in old(freeNodes.free) || fresh(n))
      && freeNodes.created - |freeNodes.free| - count == old(freeNodes.created - |freeNodes.free| - count)
    }

    lemma HasBuckets()
      requires Linked()
      ensures 0 < capacity
    {
    }

    /** Room is made and the new node put in front of its chain. */
    method InsertNode(v: V, k: K)
      requires Valid() && freeNodes.Valid() && k !in nodeOf
      modifies `buckets, `chains, `capacity, `nodes, `nodeOf, `count, `cacheUser
      modifies buckets, nodes, freeNodes, freeNodes.free
      ensures Linked() && Indexed() && LoadBounded() && freeNodes.Valid()
      ensures View() == old(View())[k := v] && count == old(count) + 1
      ensures capacity ==
        if old(ShouldIncreaseCapacity(capacity, count)) then PrimeCapacity(old(capacity) + 1) else old(capacity)
      ensures Confined()
      ensures AtFront(old(WithRoom()), k)
      ensures forall n :: n in old(nodes) ==> n.key == old(n.key) && n.item == old(n.item)
    {
      hide WithRoom, AtFront, Before, Linked, Indexed, PrimeCapacity, Pool.Valid, LoadOk, ShouldIncreaseCapacity, View;
      hide Hashing.Lawful, CursorOk;
      HasBuckets();
      MakeRoom();
      PushFront(v, k);
    }

    lemma CapacityIsEntry()
      requires LoadBounded()
      ensures IsTableEntry(capacity)
    {
    }

    lemma NodeOfKey(k: K)
      requires Indexed() && k in nodeOf
      ensures nodeOf[k] in nodes && nodeOf[k].key == k && nodeOf[k].item == View()[k]
    {
    }

    /** The nodes ranked before those of bucket `b` are in earlier buckets. */
    lemma RankedEarlier(b: nat, i: nat)
      requires Linked() && Indexed() && b < |chains| && i < Before(chains, b) <= |Order()|
      ensures 0 < capacity && hashing.hash(Order()[i].key) % capacity < b
    {
      hide Before, Enumerate, InPlace, HeadsAgree, Holds;
      SlotsAreHashes();
      OrderOnto(i);
      var n := Order()[i];
      if b <= n.slot {
        BeforeGrows(chains, b, n.slot);
      }
    }

    /** The walk after a node was put in front of its chain. */
    twostate lemma OrderGains(new k: K)
      requires old(Linked()) && AtFront(old(chains), k)
      ensures var p := Before(old(chains), hashing.hash(k) % capacity);
        p <= |old(Order())| && Order() == Inserted(old(Order()), p, nodeOf[k])
      ensures forall n :: n in old(Order()) ==> n in old(nodes)
    {
      hide Before, Enumerate, InPlace, HeadsAgree, Inserted;
      EnumeratePushed(old(chains), hashing.hash(k) % capacity, nodeOf[k], |chains|);
      EnumeratedAreIn(old(chains), |chains|, old(nodes));
    }

    twostate lemma ListingGains(new v: V, new k: K)
      requires old(Linked()) && Linked() && Indexed() && capacity == old(capacity)
      requires AtFront(old(chains), k) && k in View() && View()[k] == v
      requires forall n :: n in old(nodes) ==> n.key == old(n.key) && n.item == old(n.item)
      ensures 0 < capacity && JoinsBucket(hashing, capacity, old(Listing()), Entry(v, k), Listing())
    {
      hide Before, Enumerate, InPlace, HeadsAgree, Holds, View, Contents;
      var node, b := nodeOf[k], hashing.hash(k) % capacity;
      var p := Before(old(chains), b);
      NodeOfKey(k);
      OrderGains(k);
      ContentsKept(old(Order()));
      ContentsInserted(old(Order()), p, node);
      BeforeUpdated(old(chains), b, chains[b], b);
      if p > 0 {
        ListingAt();
        RankedEarlier(b, p - 1);
      }
    }

    lemma ListingAt()
      ensures forall i :: 0 <= i < |Order()| ==> Listing()[i] == Entry(Order()[i].item, Order()[i].key)
    {
    }

    /**
     Adds a node for a key that is not stored. The table grows first only when more than two in three buckets' worth are
     stored; without growth the others keep their order, and the new entry comes first among those of its bucket.
     */
    method Insert(v: V, k: K)
      requires Valid() && freeNodes.Valid() && k !in nodeOf
      modifies `buckets, `chains, `capacity, `nodes, `nodeOf, `count, `cacheUser
      modifies buckets, nodes, freeNodes, freeNodes.free
      ensures Valid() && freeNodes.Valid()
      ensures View() == old(View())[k := v] && count == old(count) + 1 && cacheUser == -1
      ensures old(count) <= 2 * (old(capacity) / 3) ==> capacity == old(capacity)
      ensures AfterOneMore(old(capacity), old(count), capacity)
      ensures AtFront(old(WithRoom()), k)
      ensures capacity == old(capacity) ==> JoinsBucket(hashing, capacity, old(Listing()), Entry(v, k), Listing())
      ensures Confined()
    {
      hide Linked, Indexed, PrimeCapacity, Pool.Valid, LoadBounded, ShouldIncreaseCapacity, View, Hashing.Lawful;
      hide AfterOneMore, WithRoom, AtFront, Listing, JoinsBucket;
      CapacityIsEntry();
      HasBuckets();
      GrowsToNext(capacity, count);
      ghost var grows := ShouldIncreaseCapacity(capacity, count);
      if !grows {
        RoomWithoutGrowth();
      }
      InsertNode(v, k);
      cacheUser := -1;
      if capacity == old(capacity) {
        assert !grows;
        ListingGains(v, k);
      }
    }

    /** Replaces the item of a stored node. */
    method Overwrite(node: Node<K, V>, v: V)
      requires Valid() && node in nodes
      modifies node`item
      ensures Valid() && Confined() && node.key in old(View()) && View() == old(View())[node.key := v]
    {
      assert Keyed(node);
      node.item := v;
    }

    /** Overwrites the item of an equal key, or stores the key. */
    method Store(v: V, k: K)
      requires Valid() && freeNodes.Valid() && DistinctKeys(hashing, Keys())
      modifies `buckets, `chains, `capacity, `nodes, `nodeOf, `count, `cacheUser
      modifies buckets, nodes, freeNodes, freeNodes.free
      ensures Valid() && freeNodes.Valid() && Confined()
      ensures View() == KeyedMaps.Put(hashing, old(View()), v, k)
      ensures if HasEqual(hashing, old(Keys()), k) then capacity == old(capacity)
              else AfterOneMore(old(capacity), old(count), capacity)
    {
      hide Linked, Indexed, LoadBounded, CursorOk, Pool.Valid, KeyedMaps.Put, Hashing.Lawful, View;
      hide ShouldIncreaseCapacity, AfterOneMore, WithRoom, AtFront, Listing, JoinsBucket;
      var node := Find(k);
      if node == null {
        PutAbsent(hashing, View(), v, k);
        Insert(v, k);
      } else {
        ViewOf(node);
        PutAt(hashing, View(), v, k, node.key);
        Overwrite(node, v);
      }
    }

    /** `put`: what it does is said in terms of keys, without regard to hash codes. */
    method Put(v: V, k: K)
      requires Valid() && freeNodes.Valid() && DistinctKeys(hashing, Keys())
      modifies `buckets, `chains, `capacity, `nodes, `nodeOf, `count, `cacheUser, `generation
      modifies buckets, nodes, freeNodes, freeNodes.free
      ensures Valid() && freeNodes.Valid() && Confined()
      ensures View() == KeyedMaps.Put(hashing, old(View()), v, k)
      ensures IsUpdate(hashing, old(View()), v, k, View())
      ensures if HasEqual(hashing, old(Keys()), k) then capacity == old(capacity)
              else AfterOneMore(old(capacity), old(count), capacity)
      ensures generation == old(generation) + 1
    {
      hide Linked, Indexed, LoadBounded, CursorOk, Pool.Valid, KeyedMaps.Put, Hashing.Lawful, View, DistinctKeys;
      hide AfterOneMore, IsUpdate, HasEqual;
      PutIsUpdate(hashing, View(), v, k);
      Store(v, k);
      generation := generation + 1;
    }

    /** The cursor stands on the node of rank `index`, or on an empty tail with `index - 1` nodes behind it. */
    ghost predicate Scanning(index: int)
      requires Linked()
      reads `cacheNode, `cacheBuckets, `nodes, `buckets, `chains, `capacity, buckets
      reads nodes`owner, nodes`slot, nodes`depth, nodes`next
    {
      && 0 <= cacheBuckets < capacity
      && if cacheNode == null then Before(chains, cacheBuckets + 1) == index - 1
         else cacheNode in nodes && InPlace(cacheNode, buckets, chains) && cacheNode.slot == cacheBuckets &&
              Position(chains, cacheNode.slot, cacheNode.depth) == index - 1
    }

    /** The head of bucket `b` is the first node ranked after those of the earlier buckets. */
    lemma HeadIsNext(b: nat)
      requires Linked() && b < capacity
      ensures buckets[b] == null ==> Before(chains, b + 1) == Before(chains, b)
      ensures buckets[b] != null ==>
        var n := buckets[b];
        n in nodes && InPlace(n, buckets, chains) && n.slot == b &&
        Position(chains, n.slot, n.depth) == Before(chains, b)
    {
    }

    /** The node after the cursor, if any, has the next rank; otherwise the bucket is exhausted. */
    lemma NextIsNext()
      requires Linked() && CursorOk() && 1 <= cacheUser
      ensures 0 <= cacheBuckets < capacity
      ensures cacheNode.next == null ==> Before(chains, cacheBuckets + 1) == cacheUser
      ensures cacheNode.next != null ==>
        var n := cacheNode.next;
        n in nodes && InPlace(n, buckets, chains) && n.slot == cacheBuckets &&
        Position(chains, n.slot, n.depth) == cacheUser
    {
    }

    /** As long as the node of rank `index` is not found, there is one more bucket. */
    lemma BucketAhead(index: int)
      requires Linked() && index <= Total(chains) && Scanning(index) && cacheNode == null
      ensures cacheBuckets + 1 < capacity == buckets.Length
    {
    }

    /** Skips empty buckets. */
    method ScanBuckets(index: int)
      requires Linked() && 1 <= index <= Total(chains) && Scanning(index)
      modifies `cacheNode, `cacheBuckets
      ensures cacheUser == index ==> CursorOk()
    {
      hide Linked, InPlace, Before, Position;
      while cacheNode == null
        invariant Scanning(index)
        decreases capacity - cacheBuckets
      {
        BucketAhead(index);
        cacheBuckets := cacheBuckets + 1;
        cacheNode := buckets[cacheBuckets];
        HeadIsNext(cacheBuckets);
      }
    }

    /** The branch that moves the cursor one rank up. */
    method StepCursor(index: int)
      requires Valid() && 1 <= cacheUser && index == cacheUser + 1 <= count
      modifies `cacheUser, `cacheNode, `cacheBuckets
      ensures Valid() && cacheUser == index
    {
      NextIsNext();
      hide Linked, InPlace, Before, Position, Indexed, Hashing.Lawful, IsTableEntry;
      cacheUser := index;
      cacheNode := cacheNode.next;
      assert Scanning(index);
      hide Scanning, CursorOk;
      ScanBuckets(index);
    }

    /** Where the walk starts: the first bucket, with no node before it. */
    lemma FirstHead()
      requires Linked() && LoadBounded()
      ensures 0 < capacity == buckets.Length && Before(chains, 0) == 0 && count == Total(chains)
      ensures buckets[0] == null ==> Before(chains, 1) == 0
      ensures buckets[0] != null ==>
        var n := buckets[0];
        n in nodes && InPlace(n, buckets, chains) && n.slot == 0 && Position(chains, n.slot, n.depth) == 0
    {
      hide InPlace, IsTableEntry;
      HeadIsNext(0);
    }

    /** The branch that puts the cursor on the first node. */
    method StartCursor()
      requires Valid() && 1 <= count
      modifies `cacheUser, `cacheNode, `cacheBuckets
      ensures Valid() && cacheUser == 1
    {
      hide Linked, InPlace, Before, Position, Indexed, LoadBounded, Hashing.Lawful, IsTableEntry;
      FirstHead();
      cacheUser := 1;
      cacheBuckets := 0;
      cacheNode := buckets[cacheBuckets];
      assert Scanning(1);
      hide Scanning, CursorOk;
      ScanBuckets(1);
    }

    /** Puts the cursor on the node of rank `index`. */
    method SetCacheUser(index: int)
      requires Valid() && 1 <= index <= count
      modifies `cacheUser, `cacheNode, `cacheBuckets
      ensures Valid() && cacheUser == index
      decreases if index == cacheUser + 1 || index == cacheUser || index == 1 then 0 else 1
    {
      hide Linked, Indexed, LoadBounded, Hashing.Lawful;
      if index == cacheUser + 1 {
        StepCursor(index);
      } else if index == cacheUser {
      } else if index == 1 {
        StartCursor();
      } else {
        SetCacheUser(1);
        while cacheUser != index
          invariant Valid() && 1 <= cacheUser <= index <= count
          decreases index - cacheUser
        {
          SetCacheUser(cacheUser + 1);
        }
      }
    }

    /** The nodes bucket by bucket, each chain from its head. */
    ghost function Order(): (s: seq<Node<K, V>>)
      ensures |s| == Total(chains)
      reads `chains
    {
      Enumerate(chains, |chains|)
    }

    lemma OrderAt(n: Node<K, V>)
      requires Linked() && n in nodes
      ensures n.slot < |chains| && n.depth < |chains[n.slot]|
      ensures Position(chains, n.slot, n.depth) < |Order()| && Order()[Position(chains, n.slot, n.depth)] == n
    {
      assert InPlace(n, buckets, chains);
      EnumerateAt(chains, n.slot, n.depth, |chains|);
    }

    lemma OrderOnto(i: nat)
      requires Linked() && i < |Order()|
      ensures Order()[i] in nodes
      ensures var n := Order()[i];
        n.slot < |chains| && n.depth < |chains[n.slot]| && Position(chains, n.slot, n.depth) == i
    {
      var b, j := EnumerateOnto(chains, |chains|, i);
      EnumerateAt(chains, b, j, |chains|);
      assert chains[b][j] in nodes;
    }

    /** The contents in walking order. */
    ghost function Listing(): (s: seq<Entry<K, V>>)
      ensures |s| == Total(chains)
      reads `chains, Order()
    {
      Contents(Order())
    }

    lemma ListingCount()
      requires Valid()
      ensures |Listing()| == count
    {
    }

    /** The walk goes through the buckets in the order of the hash codes modulo the capacity. */
    lemma BucketOrder(i: int, j: int)
      requires Valid() && 0 <= i < j < count
      ensures |Listing()| == count && 0 < capacity
      ensures hashing.hash(Listing()[i].key) % capacity <= hashing.hash(Listing()[j].key) % capacity
    {
      hide Before, Enumerate, InPlace, HeadsAgree, Holds, Hashing.Lawful;
      OrderOnto(i);
      OrderOnto(j);
      SlotsAreHashes();
      var m, n := Order()[i], Order()[j];
      if n.slot < m.slot {
        BeforeGrows(chains, n.slot + 1, m.slot);
        NextBucket(n.slot);
      }
    }

    lemma NextBucket(b: nat)
      requires b < |chains|
      ensures Before(chains, b + 1) == Before(chains, b) + |chains[b]|
    {
    }

    /** Walking the buckets meets every stored key exactly once, with its item, and nothing else. */
    lemma ListingIsView()
      requires Valid()
      ensures |Listing()| == count == |View()|
      ensures forall i :: 0 <= i < count ==> Listing()[i].key in View() && View()[Listing()[i].key] == Listing()[i].item
      ensures forall i, j :: 0 <= i < j < count ==> Listing()[i].key != Listing()[j].key
      ensures forall k :: k in View() ==> exists i :: 0 <= i < count && Listing()[i].key == k
    {
      hide Before, Position, Enumerate, InPlace, HeadsAgree, Holds, Hashing.Lawful;
      forall i | 0 <= i < count ensures Order()[i] in nodes && Keyed(Order()[i]) {
        OrderOnto(i);
      }
      forall i, j | 0 <= i < j < count ensures Order()[i].key != Order()[j].key {
        OrderOnto(i);
        OrderOnto(j);
        assert Keyed(Order()[i]) && Keyed(Order()[j]);
      }
      forall k | k in View() ensures exists i :: 0 <= i < count && Listing()[i].key == k {
        OrderAt(nodeOf[k]);
        assert Listing()[Position(chains, nodeOf[k].slot, nodeOf[k].depth)].key == k;
      }
      assert |View()| == |View().Keys|;
    }

    method Key(index: int) returns (k: K)
      requires Valid() && 1 <= index <= count
      modifies `cacheUser, `cacheNode, `cacheBuckets
      ensures Valid() && Listing() == old(Listing()) && |Listing()| == count && k == Listing()[index - 1].key
    {
      hide Indexed, Hashing.Lawful, Before, Enumerate, Position, HeadsAgree, Holds;
      SetCacheUser(index);
      OrderAt(cacheNode);
      ContentsKept(Order());
      k := cacheNode.key;
    }

    method Item(index: int) returns (v: V)
      requires Valid() && 1 <= index <= count
      modifies `cacheUser, `cacheNode, `cacheBuckets
      ensures Valid() && Listing() == old(Listing()) && |Listing()| == count && v == Listing()[index - 1].item
    {
      hide Indexed, Hashing.Lawful, Before, Enumerate, Position, HeadsAgree, Holds;
      SetCacheUser(index);
      OrderAt(cacheNode);
      ContentsKept(Order());
      v := cacheNode.item;
    }

    /** The dictionary's `add`: its caller promises that no equal key is stored. */
    method Add(v: V, k: K)
      requires Valid() && freeNodes.Valid() && !HasEqual(hashing, Keys(), k)
      modifies `buckets, `chains, `capacity, `nodes, `nodeOf, `count, `cacheUser, `generation
      modifies buckets, nodes, freeNodes, freeNodes.free
      ensures Valid() && freeNodes.Valid() && Confined()
      ensures View() == old(View())[k := v] && AfterOneMore(old(capacity), old(count), capacity)
      ensures generation == old(generation) + 1
    {
      hide Linked, Keyed, LoadBounded, CursorOk, Pool.Valid, Hashing.Lawful;
      hide AfterOneMore, WithRoom, AtFront, Listing, JoinsBucket;
      assert k !in nodeOf by {
        assert hashing.Same(k, k);
      }
      Insert(v, k);
      generation := generation + 1;
    }

    method Has(k: K) returns (b: bool)
      requires Valid()
      ensures b <==> exists x :: x in Keys() && (x == k || hashing.isEqual(x, k))
    {
      var node := Find(k);
      if node != null {
        ViewOf(node);
      }
      b := node != null;
    }

    method FastHas(k: K) returns (b: bool)
      requires Valid()
      ensures b <==> k in View()
    {
      var node := FastFind(k);
      b := node != null;
    }

    /** The item of an equal key, or nothing. */
    method ReferenceAt(k: K) returns (r: Option<V>)
      requires Valid() && DistinctKeys(hashing, Keys())
      ensures r == Lookup(hashing, View(), k)
      ensures r.None? <==> forall x :: x in View() ==> x != k && !hashing.isEqual(x, k)
      ensures forall x :: x in View() && (x == k || hashing.isEqual(x, k)) ==> r == Some(View()[x])
    {
      LookupIs(hashing, View(), k);
      var node := Find(k);
      if node == null {
        return None;
      }
      ViewOf(node);
      LookupAt(hashing, View(), k, node.key);
      r := Some(node.item);
    }

    /** The item stored under this very key object, or nothing. */
    method FastReferenceAt(k: K) returns (r: Option<V>)
      requires Valid()
      ensures r == if k in View() then Some(View()[k]) else None
    {
      var node := FastFind(k);
      r := if node == null then None else Some(node.item);
    }

    /** The walk of `at` and `internal_key`, which tests no node for Void: it stops because the key is there. */
    method FindPresent(k: K) returns (node: Node<K, V>)
      requires Valid() && HasEqual(hashing, Keys(), k)
      ensures node in nodes && (node.key == k || hashing.isEqual(node.key, k))
    {
      var idx := hashing.Slot(k, capacity);
      ghost var x :| x in nodeOf && hashing.Same(x, k);
      ghost var goal := nodeOf[x];
      hashing.SameSlot(x, k, capacity);
      assert Keyed(goal) && InPlace(goal, buckets, chains);
      node := buckets[idx];
      ghost var d := |chains[idx]| - 1;
      while !hashing.Same(node.key, k)
        invariant goal.depth <= d < |chains[idx]| && node == chains[idx][d]
        decreases d
      {
        assert InPlace(node, buckets, chains);
        node := node.next;
        d := d - 1;
      }
    }

    method At(k: K) returns (v: V)
      requires Valid() && DistinctKeys(hashing, Keys()) && HasEqual(hashing, Keys(), k)
      ensures Lookup(hashing, View(), k) == Some(v)
      ensures forall x :: x in View() && (x == k || hashing.isEqual(x, k)) ==> v == View()[x]
    {
      LookupIs(hashing, View(), k);
      var node := FindPresent(k);
      ViewOf(node);
      LookupAt(hashing, View(), k, node.key);
      v := node.item;
    }

    /** The key object that is actually stored. */
    method InternalKey(k: K) returns (x: K)
      requires Valid() && HasEqual(hashing, Keys(), k)
      ensures x in View() && (x == k || hashing.isEqual(x, k))
    {
      var node := FindPresent(k);
      ViewOf(node);
      x := node.key;
    }

    lemma EmptyIsWellFormed()
      requires nodes == {} && nodeOf == map[] && count == 0 && cacheUser == -1
      requires |chains| == buckets.Length == capacity && IsTableEntry(capacity)
      requires forall b :: 0 <= b < buckets.Length ==> buckets[b] == null && chains[b] == []
      ensures Linked() && Indexed() && LoadBounded() && CursorOk() && View() == map[]
    {
      hide Before, IsTableEntry;
      EntriesArePositive(capacity);
      BeforeOfEmpty(chains, |chains|);
    }

    /** Installs empty buckets. Chains that a live table still has are dropped, not recycled. */
    method CreateWithCapacity(newCapacity: int32, pool: Pool<K, V>)
      requires IsTableEntry(newCapacity) && hashing.Lawful()
      modifies this
      ensures Valid() && View() == map[] && count == 0 && cacheUser == -1 && capacity == newCapacity
      ensures fresh(buckets) && nodes == {} && generation == old(generation)
      ensures freeNodes == if old(freeNodes) == null then pool else old(freeNodes)
    {
      hide Hashing.Lawful, IsTableEntry, Linked, Indexed, LoadBounded, CursorOk;
      if freeNodes == null {
        freeNodes := pool;
      }
      EntriesArePositive(newCapacity);
      buckets := new Node?<K, V>[newCapacity](_ => null);
      capacity := newCapacity;
      cacheUser := -1;
      count := 0;
      chains, nodes, nodeOf := seq(newCapacity, _ => []), {}, map[];
      EmptyIsWellFormed();
    }

    /** Cuts chain `i` off its bucket. */
    method Detach(i: nat) returns (head: Node?<K, V>)
      requires Linked() && i < capacity
      modifies `chains, `nodes, buckets
      ensures Linked() && chains == old(chains)[i := []]
      ensures nodes == old(nodes) - (set n | n in old(chains)[i]) && head == Top(old(chains)[i])
    {
      head := buckets[i];
      buckets[i] := null;
      nodes := nodes - (set n | n in chains[i]);
      chains := chains[i := []];
      forall n {:trigger InPlace(n, buckets, chains)} | n in nodes ensures InPlace(n, buckets, chains) {
        assert old(InPlace(n, buckets, chains));
      }
    }

    /** The scan that disposes of every chain, from the last bucket to the first. */
    method DrainAll(blankItem: V, blankKey: K)
      requires Linked() && freeNodes != null && freeNodes.Valid()
      modifies `chains, `nodes, buckets, nodes, freeNodes
      ensures Linked() && freeNodes.Valid() && nodes == {} && Total(chains) == 0
      ensures freeNodes.created == old(freeNodes.created)
      ensures |freeNodes.free| == old(|freeNodes.free| + Total(chains))
      ensures forall n :: n in freeNodes.free ==> n in old(nodes) || n in old(freeNodes.free)
    {
      hide Before;
      var i := capacity - 1;
      while i >= 0
        invariant -1 <= i < capacity
        invariant Linked() && freeNodes.Valid()
        invariant nodes <= old(nodes)
        invariant forall b :: i < b < |chains| ==> chains[b] == []
        invariant freeNodes.created == old(freeNodes.created)
        invariant |freeNodes.free| + Total(chains) == old(|freeNodes.free| + Total(chains))
        invariant forall n :: n in freeNodes.free ==> n in old(nodes) || n in old(freeNodes.free)
      {
        DrainOne(i, blankItem, blankKey);
        i := i - 1;
      }
      BeforeOfEmpty(chains, |chains|);
      assert forall n :: n in nodes ==> InPlace(n, buckets, chains);
    }

    method DrainOne(i: nat, blankItem: V, blankKey: K)
      requires Linked() && freeNodes != null && freeNodes.Valid() && i < capacity
      modifies `chains, `nodes, buckets, nodes, freeNodes
      ensures Linked() && freeNodes.Valid() && nodes <= old(nodes)
      ensures chains == old(chains)[i := []] && freeNodes.created == old(freeNodes.created)
      ensures |freeNodes.free| + Total(chains) == old(|freeNodes.free| + Total(chains))
      ensures forall n :: n in freeNodes.free ==> n in old(nodes) || n in old(freeNodes.free)
    {
      hide Before;
      ghost var chain := chains[i];
      ApartFromPool();
      BeforeUpdated(chains, i, [], |chains|);
      assert forall j :: 0 <= j < |chain| ==> chain[j] == chains[i][j] && InPlace(chain[j], buckets, chains);
      var head := Detach(i);
      freeNodes.DisposeChain(head, chain, blankItem, blankKey);
    }

    /** Empties the table; every node goes to the free list. */
    method ClearCount(blankItem: V, blankKey: K)
      requires Valid() && freeNodes.Valid()
      modifies `chains, `nodes, `nodeOf, `count, `cacheUser, `generation
      modifies buckets, nodes, freeNodes
      ensures Valid() && freeNodes.Valid() && Confined()
      ensures View() == map[] && Keys() == {} && count == 0 && cacheUser == -1 && generation == old(generation) + 1
    {
      hide Linked, Before, IsTableEntry, Hashing.Lawful, Pool.Valid;
      cacheUser := -1;
      count := 0;
      DrainAll(blankItem, blankKey);
      nodeOf := map[];
      generation := generation + 1;
    }
  }

  /** What a table stands for, as a function that is defined for any table. */
  ghost function ValueOf<K(!new), V>(t: HashTable<K, V>): map<K, V>
    reads t, t.nodes
  {
    if t.Indexed() then t.View() else map[]
  }
}
