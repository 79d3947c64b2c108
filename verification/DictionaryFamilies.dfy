/** Any number of dictionaries of one type on one pool, and every run of operations and of reads by index on them. */
module DictionaryFamilies {
  import opened HashTableSize
  import opened KeyedMaps
  import opened HashTables
  import opened DictionaryRuns
  import opened Families

  /** One call. Dictionaries are numbered by their creation; calls on one that does not exist are skipped. */
  datatype Call<K, V> =
    | Create
    | Put(i: nat, item: V, key: K)
    | Add(i: nat, item: V, key: K)
    | Clear(i: nat)
    | At(i: nat, key: K)
    | EntryAt(i: nat, index: int)

  /** What a call returns. */
  datatype Answer<K, V> = Done | Found(item: Option<V>) | Listed(entry: Entry<K, V>)

  /** What a call makes of the dictionary it is made on; `add` is for absent keys only. */
  ghost function After<K(!new), V>(h: Hashing<K>, m: map<K, V>, call: Call<K, V>): map<K, V> {
    match call
    case Put(_, v, k) => KeyedMaps.Put(h, m, v, k)
    case Add(_, v, k) => if HasEqual(h, m.Keys, k) then m else m[k := v]
    case Clear(_) => map[]
    case _ => m
  }

  ghost function Effect<K(!new), V>(h: Hashing<K>, ms: seq<map<K, V>>, call: Call<K, V>): seq<map<K, V>> {
    if call.Create? then ms + [map[]]
    else if call.i < |ms| then ms[call.i := After(h, ms[call.i], call)]
    else ms
  }

  ghost function Effects<K(!new), V>(h: Hashing<K>, ms: seq<map<K, V>>, calls: seq<Call<K, V>>): seq<map<K, V>> {
    if calls == [] then ms else Effect(h, Effects(h, ms, calls[..|calls| - 1]), calls[|calls| - 1])
  }

  /** The call stores an item under a key equal to `q` in dictionary `i`: by `put`, or by an `add` that adds. */
  ghost predicate Writes<K(!new), V>(h: Hashing<K>, ms: seq<map<K, V>>, call: Call<K, V>, i: nat, q: K) {
    && i < |ms| && (call.Put? || call.Add?) && call.i == i && h.Same(call.key, q)
    && (call.Add? ==> !HasEqual(h, ms[i].Keys, call.key))
  }

  ghost predicate WritesAt<K(!new), V>(h: Hashing<K>, calls: seq<Call<K, V>>, n: nat, i: nat, q: K)
    ensures WritesAt(h, calls, n, i, q) ==> n < |calls| && (calls[n].Put? || calls[n].Add?)
  {
    n < |calls| && Writes(h, Effects(h, [], calls[..n]), calls[n], i, q)
  }

  /** Call `n` stored an item under a key equal to `q` in dictionary `i`, which was not emptied since. */
  ghost predicate StoredBy<K(!new), V>(h: Hashing<K>, calls: seq<Call<K, V>>, n: nat, i: nat, q: K) {
    WritesAt(h, calls, n, i, q) && forall m :: n < m < |calls| ==> calls[m] != Clear(i)
  }

  /** The last call that did. */
  ghost predicate LastStoredBy<K(!new), V>(h: Hashing<K>, calls: seq<Call<K, V>>, n: nat, i: nat, q: K) {
    StoredBy(h, calls, n, i, q) && forall m: nat :: n < m < |calls| ==> !WritesAt(h, calls, m, i, q)
  }

  /** What one call does to the answer for `q` in dictionary `i`. */
  lemma LookupAfterCall<K(!new), V>(h: Hashing<K>, ms: seq<map<K, V>>, call: Call<K, V>, i: nat, q: K)
    requires h.Lawful() && i < |ms| && DistinctKeys(h, ms[i].Keys)
    ensures Lookup(h, Effect(h, ms, call)[i], q) ==
      if Writes(h, ms, call, i, q) then Some(call.item)
      else if call == Clear(i) then None
      else Lookup(h, ms[i], q)
  {
    hide Hashing.Lawful, Lookup, KeyedMaps.Put, DistinctKeys;
    LookupIn<K, V>(h, map[], q);
    if (call.Put? || call.Add?) && call.i == i {
      LookupAfterPut(h, ms[i], call.item, call.key, q);
      if call.Add? && !HasEqual(h, ms[i].Keys, call.key) {
        PutAbsent(h, ms[i], call.item, call.key);
      }
    }
  }

  lemma {:induction false} EffectsKeepDistinct<K(!new), V>(h: Hashing<K>, calls: seq<Call<K, V>>)
    requires h.Lawful()
    ensures forall i :: 0 <= i < |Effects<K, V>(h, [], calls)| ==> DistinctKeys(h, Effects(h, [], calls)[i].Keys)
  {
    hide Hashing.Lawful, KeyedMaps.Put, DistinctKeys;
    if calls != [] {
      var before, call := calls[..|calls| - 1], calls[|calls| - 1];
      EffectsKeepDistinct(h, before);
      NoKeysAreDistinct<K, V>(h, map[]);
      var ms := Effects(h, [], before);
      if (call.Put? || call.Add?) && call.i < |ms| {
        PutKeepsKeys(h, ms[call.i], call.item, call.key);
        if call.Add? && !HasEqual(h, ms[call.i].Keys, call.key) {
          PutAbsent(h, ms[call.i], call.item, call.key);
        }
      }
    }
  }

  /** The calls but the last store as before. */
  lemma WritesBefore<K(!new), V>(h: Hashing<K>, calls: seq<Call<K, V>>, n: nat, i: nat, q: K)
    requires n < |calls| - 1
    ensures WritesAt(h, calls[..|calls| - 1], n, i, q) <==> WritesAt(h, calls, n, i, q)
  {
    hide Effects;
    assert calls[..|calls| - 1][..n] == calls[..n];
  }

  /** What was stored is stored by the last call, or was stored before and survives it. */
  lemma StoredEarlier<K(!new), V>(h: Hashing<K>, calls: seq<Call<K, V>>, i: nat, q: K, n: nat)
    requires calls != []
    ensures var last := |calls| - 1; var before, written := calls[..last], WritesAt(h, calls, last, i, q);
      && (StoredBy(h, calls, n, i, q) <==>
            (n == last && written) || (StoredBy(h, before, n, i, q) && calls[last] != Clear(i)))
      && (LastStoredBy(h, calls, n, i, q) <==>
            (n == last && written) || (LastStoredBy(h, before, n, i, q) && calls[last] != Clear(i) && !written))
  {
    hide WritesAt;
    var last := |calls| - 1;
    var before := calls[..last];
    assert forall m :: 0 <= m < last ==> before[m] == calls[m];
    forall m: nat | m < last ensures WritesAt(h, before, m, i, q) <==> WritesAt(h, calls, m, i, q) {
      WritesBefore(h, calls, m, i, q);
    }
    if n < last {
      assert (forall m :: n < m < |calls| ==> calls[m] != Clear(i)) <==>
        calls[last] != Clear(i) && forall m :: n < m < last ==> before[m] != Clear(i);
      assert (forall m: nat :: n < m < |calls| ==> !WritesAt(h, calls, m, i, q)) <==>
        !WritesAt(h, calls, last, i, q) && forall m: nat :: n < m < last ==> !WritesAt(h, before, m, i, q);
    }
  }

  lemma {:induction false} DictionariesStay<K(!new), V>(h: Hashing<K>, calls: seq<Call<K, V>>, n: nat)
    requires n <= |calls|
    ensures |Effects<K, V>(h, [], calls[..n])| <= |Effects<K, V>(h, [], calls)|
  {
    hide After;
    if n < |calls| {
      var before := calls[..|calls| - 1];
      assert before[..n] == calls[..n];
      DictionariesStay(h, before, n);
    } else {
      assert calls[..n] == calls;
    }
  }

  lemma NothingStoredYet<K(!new), V>(h: Hashing<K>, calls: seq<Call<K, V>>, i: nat, q: K)
    requires |Effects<K, V>(h, [], calls)| <= i
    ensures forall n: nat :: !WritesAt(h, calls, n, i, q)
  {
    forall n: nat | n < |calls| ensures !WritesAt(h, calls, n, i, q) {
      DictionariesStay(h, calls, n);
    }
  }

  /**
   `at` after any run: it finds the item of the last `put`, or `add` that added, under an equal key since the dictionary
   was last emptied, and nothing when there was none.
   */
  lemma {:induction false} AtFindsLast<K(!new), V>(h: Hashing<K>, calls: seq<Call<K, V>>, i: nat, q: K)
    requires h.Lawful() && i < |Effects<K, V>(h, [], calls)|
    ensures Lookup(h, Effects(h, [], calls)[i], q).None? <==> forall n: nat :: !StoredBy(h, calls, n, i, q)
    ensures forall n: nat :: LastStoredBy(h, calls, n, i, q) ==>
      Lookup(h, Effects(h, [], calls)[i], q) == Some(calls[n].item)
  {
    hide Hashing.Lawful, Lookup, DistinctKeys, StoredBy, LastStoredBy;
    if calls == [] {
      LookupIn<K, V>(h, map[], q);
      NotStored(h, calls, i, q);
    } else {
      var last := |calls| - 1;
      var before, call := calls[..last], calls[last];
      var ms := Effects(h, [], before);
      forall n: nat
        ensures StoredBy(h, calls, n, i, q) <==>
          (n == last && WritesAt(h, calls, last, i, q)) || (StoredBy(h, before, n, i, q) && call != Clear(i))
        ensures LastStoredBy(h, calls, n, i, q) <==>
          (n == last && WritesAt(h, calls, last, i, q)) ||
          (LastStoredBy(h, before, n, i, q) && call != Clear(i) && !WritesAt(h, calls, last, i, q))
      {
        StoredEarlier(h, calls, i, q, n);
      }
      assert WritesAt(h, calls, last, i, q) ==> StoredBy(h, calls, last, i, q);
      if i < |ms| {
        AtFindsLast(h, before, i, q);
        EffectsKeepDistinct(h, before);
        LookupAfterCall(h, ms, call, i, q);
        LastIsStored(h, before, i, q);
      } else {
        NothingStoredYet(h, before, i, q);
        NotStored(h, before, i, q);
        LookupIn<K, V>(h, map[], q);
      }
    }
  }

  lemma LastIsStored<K(!new), V>(h: Hashing<K>, calls: seq<Call<K, V>>, i: nat, q: K)
    ensures forall n: nat :: LastStoredBy(h, calls, n, i, q) ==> n < |calls|
  {
  }

  lemma NotStored<K(!new), V>(h: Hashing<K>, calls: seq<Call<K, V>>, i: nat, q: K)
    requires forall n: nat :: !WritesAt(h, calls, n, i, q)
    ensures forall n: nat :: !StoredBy(h, calls, n, i, q) && !LastStoredBy(h, calls, n, i, q)
  {
  }

  /** A dictionary at one moment: the map it stands for, and that map in the order of its indices. */
  datatype Snapshot<K, V> = Snapshot(value: map<K, V>, listing: seq<Entry<K, V>>)

  /** The listing has every pair of the map once. */
  ghost predicate IsListed<K(!new), V>(d: Snapshot<K, V>) {
    && |d.listing| == |d.value|
    && (forall i :: 0 <= i < |d.listing| ==>
          d.listing[i].key in d.value && d.value[d.listing[i].key] == d.listing[i].item)
    && (forall i, j :: 0 <= i < j < |d.listing| ==> d.listing[i].key != d.listing[j].key)
  }

  ghost function Values<K(!new), V>(ds: seq<Snapshot<K, V>>): (ms: seq<map<K, V>>)
    ensures |ms| == |ds|
  {
    seq(|ds|, i requires 0 <= i < |ds| => ds[i].value)
  }

  /** The call may change dictionary `i`. */
  predicate Changes<K, V>(call: Call<K, V>, i: nat) {
    (call.Put? || call.Add? || call.Clear?) && call.i == i
  }

  /** `a` answers the call on the dictionary `d`: `at` as the map does, a read by index from the listing. */
  ghost predicate Answers<K(!new), V>(h: Hashing<K>, d: Snapshot<K, V>, call: Call<K, V>, a: Answer<K, V>) {
    match call
    case At(_, k) => a == Found(Lookup(h, d.value, k))
    case EntryAt(_, index) => a == if 1 <= index <= |d.listing| then Listed(d.listing[index - 1]) else Done
    case _ => a.Done?
  }

  ghost predicate AnswersAt<K(!new), V>(h: Hashing<K>, ds: seq<Snapshot<K, V>>, call: Call<K, V>, a: Answer<K, V>) {
    if !call.Create? && call.i < |ds| then Answers(h, ds[call.i], call, a) else a.Done?
  }

  /** One call, from the dictionaries `ds` to `after`: only the one that is called may change, order included. */
  ghost predicate IsStep<K(!new), V>(
    h: Hashing<K>, ds: seq<Snapshot<K, V>>, call: Call<K, V>, after: seq<Snapshot<K, V>>, a: Answer<K, V>)
  {
    && Values(after) == Effect(h, Values(ds), call)
    && (forall i :: 0 <= i < |ds| && i < |after| && !Changes(call, i) ==> after[i] == ds[i])
    && (forall i :: 0 <= i < |after| ==> IsListed(after[i]))
    && AnswersAt(h, ds, call, a)
  }

  /** A call on an existing dictionary, from what becomes of that dictionary. */
  lemma StepAt<K(!new), V>(h: Hashing<K>, ds: seq<Snapshot<K, V>>, call: Call<K, V>, d: Snapshot<K, V>,
      after: seq<Snapshot<K, V>>, a: Answer<K, V>)
    requires !call.Create? && call.i < |ds| && after == ds[call.i := d]
    requires d.value == After(h, ds[call.i].value, call) && (!Changes(call, call.i) ==> d == ds[call.i])
    requires Answers(h, ds[call.i], call, a)
    requires forall i :: 0 <= i < |after| ==> IsListed(after[i])
    ensures IsStep(h, ds, call, after, a)
  {
    hide IsListed, After, Answers;
    assert Values(after) == Values(ds)[call.i := d.value];
  }

  /** The dictionaries before each call of a run, and after the last. */
  ghost predicate IsRun<K(!new), V>(
    h: Hashing<K>, calls: seq<Call<K, V>>, states: seq<seq<Snapshot<K, V>>>, answers: seq<Answer<K, V>>)
  {
    && |states| == |calls| + 1 && |answers| == |calls|
    && forall n :: 0 <= n < |calls| ==> IsStep(h, states[n], calls[n], states[n + 1], answers[n])
  }

  lemma OneMoreStep<K(!new), V>(
    h: Hashing<K>, calls: seq<Call<K, V>>, states: seq<seq<Snapshot<K, V>>>, answers: seq<Answer<K, V>>,
    call: Call<K, V>, after: seq<Snapshot<K, V>>, a: Answer<K, V>)
    requires IsRun(h, calls, states, answers) && IsStep(h, states[|calls|], call, after, a)
    ensures IsRun(h, calls + [call], states + [after], answers + [a])
  {
    hide IsStep;
  }

  /** Every run computes the abstract one. */
  lemma {:induction false} RunComputes<K(!new), V>(
    h: Hashing<K>, calls: seq<Call<K, V>>, states: seq<seq<Snapshot<K, V>>>, answers: seq<Answer<K, V>>, n: nat)
    requires IsRun(h, calls, states, answers) && n <= |calls|
    ensures Values(states[n]) == Effects(h, Values(states[0]), calls[..n])
  {
    if n > 0 {
      RunComputes(h, calls, states, answers, n - 1);
      assert IsStep(h, states[n - 1], calls[n - 1], states[n - 1 + 1], answers[n - 1]);
      hide Effect;
      assert calls[..n][..n - 1] == calls[..n - 1];
    } else {
      assert calls[..0] == [];
    }
  }

  /** A dictionary that no call in between changes is the same, and has the same order. */
  lemma {:induction false} SameBetween<K(!new), V>(
    h: Hashing<K>, calls: seq<Call<K, V>>, states: seq<seq<Snapshot<K, V>>>, answers: seq<Answer<K, V>>,
    i: nat, n: nat, m: nat)
    requires IsRun(h, calls, states, answers) && n <= m <= |calls| && i < |states[n]|
    requires forall k :: n <= k < m ==> !Changes(calls[k], i)
    ensures i < |states[m]| && states[m][i] == states[n][i]
  {
    if n < m {
      SameBetween(h, calls, states, answers, i, n, m - 1);
      assert IsStep(h, states[m - 1], calls[m - 1], states[m - 1 + 1], answers[m - 1]);
      assert |Values(states[m])| == |Effect(h, Values(states[m - 1]), calls[m - 1])|;
    }
  }

  /**
   Two reads by index of one dictionary, with no change in between: the same index gives the same entry, and different
   indices in range give different keys.
   */
  lemma ReadsAgree<K(!new), V>(
    h: Hashing<K>, calls: seq<Call<K, V>>, states: seq<seq<Snapshot<K, V>>>, answers: seq<Answer<K, V>>,
    i: nat, n: nat, m: nat)
    requires IsRun(h, calls, states, answers) && n < m < |calls| && i < |states[n]|
    requires calls[n].EntryAt? && calls[m].EntryAt? && calls[n].i == calls[m].i == i
    requires forall k :: n <= k < m ==> !Changes(calls[k], i)
    ensures calls[n].index == calls[m].index ==> answers[n] == answers[m]
    ensures calls[n].index != calls[m].index && answers[n].Listed? && answers[m].Listed? ==>
      answers[n].entry.key != answers[m].entry.key
  {
    SameBetween(h, calls, states, answers, i, n + 1, m);
    assert IsStep(h, states[n], calls[n], states[n + 1], answers[n]);
    assert IsStep(h, states[m], calls[m], states[m + 1], answers[m]);
    assert states[n + 1][i] == states[n][i] && IsListed(states[n + 1][i]);
  }

  /** The listing of a table, read from its own nodes. */
  ghost function ListingOf<K(!new), V>(t: HashTable<K, V>): seq<Entry<K, V>>
    reads t, t.nodes
  {
    if forall n :: n in t.Order() ==> n in t.nodes then t.Listing() else []
  }

  lemma ListingIsOwn<K(!new), V>(t: HashTable<K, V>)
    requires t.Linked()
    ensures ListingOf(t) == t.Listing()
  {
    forall n | n in t.Order() ensures n in t.nodes {
      var i :| 0 <= i < |t.Order()| && t.Order()[i] == n;
      t.OrderOnto(i);
    }
  }

  ghost function SnapshotOf<K(!new), V>(t: HashTable<K, V>): Snapshot<K, V>
    reads t, t.nodes
  {
    Snapshot(ValueOf(t), ListingOf(t))
  }

  lemma SnapshotIsListed<K(!new), V>(t: HashTable<K, V>)
    requires t.Valid()
    ensures IsListed(SnapshotOf(t))
  {
    ListingIsOwn(t);
    t.ListingIsView();
  }

  /** What each dictionary stands for, in which order. */
  ghost function View<K(!new), V>(f: Family<K, V>): (v: seq<Snapshot<K, V>>)
    reads f, f.tables, set t, n | t in f.tables && n in t.nodes :: n
    ensures |v| == |f.tables|
  {
    seq(|f.tables|, i requires 0 <= i < |f.tables|
      reads f, f.tables, set t, n | t in f.tables && n in t.nodes :: n => SnapshotOf(f.tables[i]))
  }

  /** `at` behind a test with `has`. */
  method AtOrNothing<K(==,!new), V>(t: HashTable<K, V>, k: K) returns (r: Option<V>)
    requires t.Valid() && DistinctKeys(t.hashing, t.Keys())
    ensures r == Lookup(t.hashing, t.View(), k)
  {
    var b := t.Has(k);
    if b {
      var v := t.At(k);
      return Some(v);
    }
    r := None;
  }

  /** Reads by index, when there is such an index. */
  method EntryIn<K(==,!new), V>(t: HashTable<K, V>, index: int) returns (a: Answer<K, V>)
    requires t.Valid()
    modifies t`cacheUser, t`cacheNode, t`cacheBuckets
    ensures t.Valid() && SnapshotOf(t) == old(SnapshotOf(t))
    ensures a == if 1 <= index <= |ListingOf(t)| then Listed(ListingOf(t)[index - 1]) else Done
  {
    ListingIsOwn(t);
    t.ListingCount();
    hide HashTable.Valid, HashTable.Listing, HashTable.Order;
    a := Done;
    if 1 <= index <= t.count {
      var entry := ReadEntry(t, index);
      a := Listed(entry);
    }
    assert ListingOf(t) == old(ListingOf(t)) && ValueOf(t) == old(ValueOf(t));
  }

  /** The dictionary is one of the family and stores no two equal keys. */
  ghost predicate Member<K(!new), V>(f: Family<K, V>, t: HashTable<K, V>)
    reads t, t.nodes, t.buckets
  {
    f.TableOk(t) && DistinctKeys(f.hashing, t.Keys())
  }

  method PutIn<K(==,!new), V>(f: Family<K, V>, t: HashTable<K, V>, v: V, k: K)
    requires Member(f, t) && f.pool.Valid()
    modifies t, t.buckets, t.nodes, f.pool, f.pool.free
    ensures Member(f, t) && f.pool.Valid() && t.Confined()
    ensures t.View() == KeyedMaps.Put(f.hashing, old(t.View()), v, k)
  {
    assert f.hashing.Lawful();
    hide HashTable.Linked, HashTable.Keyed, HashTable.LoadBounded, Pool.Valid, Hashing.Lawful;
    hide KeyedMaps.Put, DistinctKeys;
    PutKeepsKeys(f.hashing, t.View(), v, k);
    t.Put(v, k);
  }

  /** `add`, for a key that is absent. */
  method AddIn<K(==,!new), V>(f: Family<K, V>, t: HashTable<K, V>, v: V, k: K)
    requires Member(f, t) && f.pool.Valid()
    modifies t, t.buckets, t.nodes, f.pool, f.pool.free
    ensures Member(f, t) && f.pool.Valid() && t.Confined()
    ensures t.View() == if HasEqual(f.hashing, old(t.Keys()), k) then old(t.View()) else old(t.View())[k := v]
  {
    assert f.hashing.Lawful();
    hide HashTable.Linked, HashTable.Keyed, HashTable.LoadBounded, HashTable.CursorOk, Pool.Valid, Hashing.Lawful;
    hide HasEqual, DistinctKeys;
    var b := t.Has(k);
    if !b {
      AbsentKeyIsDistinct(f.hashing, t.View(), v, k);
      t.Add(v, k);
    }
  }

  lemma AbsentKeyIsDistinct<K(!new), V>(h: Hashing<K>, m: map<K, V>, v: V, k: K)
    requires h.Lawful() && DistinctKeys(h, m.Keys) && !HasEqual(h, m.Keys, k)
    ensures DistinctKeys(h, m[k := v].Keys)
  {
    PutKeepsKeys(h, m, v, k);
    PutAbsent(h, m, v, k);
  }

  method ClearIn<K(==,!new), V>(f: Family<K, V>, t: HashTable<K, V>)
    requires Member(f, t) && f.pool.Valid()
    modifies t, t.buckets, t.nodes, f.pool, f.pool.free
    ensures Member(f, t) && f.pool.Valid() && t.Confined() && t.View() == map[]
  {
    hide HashTable.Linked, HashTable.Keyed, HashTable.LoadBounded, Pool.Valid, Hashing.Lawful, DistinctKeys;
    t.ClearCount(f.blankItem, f.blankKey);
    NoKeysAreDistinct(f.hashing, t.View());
  }

  /** A call on one dictionary: its value changes and the answer is as specified. */
  method CallOwn<K(==,!new), V>(f: Family<K, V>, t: HashTable<K, V>, call: Call<K, V>) returns (a: Answer<K, V>)
    requires Member(f, t) && f.pool.Valid() && !call.Create?
    modifies t, t.buckets, t.nodes, f.pool, f.pool.free
    ensures Member(f, t) && f.pool.Valid() && t.Confined()
    ensures ValueOf(t) == After(f.hashing, old(ValueOf(t)), call) && Answers(f.hashing, old(SnapshotOf(t)), call, a)
    ensures !Changes(call, call.i) ==> SnapshotOf(t) == old(SnapshotOf(t))
  {
    hide HashTable.Linked, HashTable.Keyed, HashTable.LoadBounded, Pool.Valid, Hashing.Lawful;
    hide DistinctKeys, KeyedMaps.Put;
    a := Done;
    match call {
      case Put(_, v, k) => PutIn(f, t, v, k);
      case Add(_, v, k) => AddIn(f, t, v, k);
      case Clear(_) => ClearIn(f, t);
      case At(_, _) => a := Read(f, t, call);
      case EntryAt(_, _) => a := Read(f, t, call);
    }
  }

  /** A call on one dictionary touches no other. */
  method CallOne<K(==,!new), V>(f: Family<K, V>, t: HashTable<K, V>, call: Call<K, V>,
      ghost others: set<HashTable<K, V>>)
    returns (a: Answer<K, V>)
    requires Member(f, t) && f.pool.Valid() && !call.Create?
    requires forall u :: u in others ==> Member(f, u) && f.Clear(t, u)
    modifies t, t.buckets, t.nodes, f.pool, f.pool.free
    ensures Member(f, t) && f.pool.Valid() && t.Confined()
    ensures ValueOf(t) == After(f.hashing, old(ValueOf(t)), call) && Answers(f.hashing, old(SnapshotOf(t)), call, a)
    ensures !Changes(call, call.i) ==> SnapshotOf(t) == old(SnapshotOf(t))
    ensures forall u {:trigger Member(f, u)} :: u in others ==>
      Member(f, u) && f.TableOk(u) && unchanged(u) && SnapshotOf(u) == old(SnapshotOf(u))
  {
    hide HashTable.Valid, HashTable.Confined, Pool.Valid, DistinctKeys, After, Answers, Changes;
    a := CallOwn(f, t, call);
  }

  /** A call that only reads. */
  method Read<K(==,!new), V>(f: Family<K, V>, t: HashTable<K, V>, call: Call<K, V>) returns (a: Answer<K, V>)
    requires Member(f, t) && f.pool.Valid() && (call.At? || call.EntryAt?)
    modifies t`cacheUser, t`cacheNode, t`cacheBuckets
    ensures Member(f, t) && f.pool.Valid() && t.Confined()
    ensures SnapshotOf(t) == old(SnapshotOf(t)) && Answers(f.hashing, SnapshotOf(t), call, a)
  {
    hide HashTable.Linked, HashTable.Keyed, HashTable.LoadBounded, HashTable.CursorOk, Pool.Valid;
    hide Hashing.Lawful, DistinctKeys;
    match call {
      case At(_, k) =>
        var r := AtOrNothing(t, k);
        a := Found(r);
      case EntryAt(_, index) =>
        a := EntryIn(t, index);
    }
  }

  /** Every dictionary is well formed, their account of nodes is balanced, and none stores two equal keys. */
  ghost predicate Sound<K(!new), V>(f: Family<K, V>)
    reads f.Footprint()
  {
    f.Valid() && forall t {:trigger Member(f, t)} :: t in f.tables ==> Member(f, t)
  }

  lemma AllListed<K(!new), V>(f: Family<K, V>)
    requires Sound(f)
    ensures forall i :: 0 <= i < |View(f)| ==> IsListed(View(f)[i])
  {
    hide HashTable.Valid, IsListed, SnapshotOf;
    forall i | 0 <= i < |View(f)| ensures IsListed(View(f)[i]) {
      assert Member(f, f.tables[i]);
      SnapshotIsListed(f.tables[i]);
    }
  }

  method CallAt<K(==,!new), V>(f: Family<K, V>, call: Call<K, V>) returns (a: Answer<K, V>)
    requires Sound(f) && !call.Create? && call.i < |f.tables|
    modifies f.tables[call.i], f.tables[call.i].buckets, f.tables[call.i].nodes, f.pool, f.pool.free
    ensures Sound(f) && f.OnlyGrows()
    ensures IsStep(f.hashing, old(View(f)), call, View(f), a)
  {
    hide HashTable.Valid, HashTable.Confined, Pool.Valid, Family.Footprint, Hashing.Lawful, After, Answers, ValueOf;
    hide DistinctKeys, ListingOf, IsListed, IsStep, Changes;
    var t := f.tables[call.i];
    assert Member(f, t);
    forall u | u in f.tables && u != t ensures Member(f, u) && f.Clear(t, u) {
      assert Member(f, u);
      f.TablesApart(t, u);
    }
    a := CallOne(f, t, call, (set u | u in f.tables && u != t));
    f.Resume(call.i);
    forall j | 0 <= j < |f.tables| && j != call.i ensures SnapshotOf(f.tables[j]) == old(SnapshotOf(f.tables[j])) {
      assert Member(f, f.tables[j]);
    }
    ghost var ds := old(View(f));
    assert View(f) == ds[call.i := SnapshotOf(t)];
    AllListed(f);
    StepAt(f.hashing, ds, call, SnapshotOf(t), View(f), a);
  }

  /** Allocates and makes one dictionary. */
  method NewDictionary<K(==,!new), V>(f: Family<K, V>) returns (t: HashTable<K, V>)
    requires f.hashing.Lawful()
    ensures fresh(t) && fresh(t.buckets) && t.nodes == {} && Member(f, t) && ValueOf(t) == map[] && t.count == 0
  {
    hide HashTable.Linked, HashTable.LoadBounded, HashTable.CursorOk, Hashing.Lawful, IsTableEntry;
    t := new HashTable(f.hashing);
    DefaultIsEntry();
    t.CreateWithCapacity(DEFAULT_SIZE, f.pool);
  }

  lemma DefaultIsEntry()
    ensures IsTableEntry(DEFAULT_SIZE)
  {
    assert CapacityAt(3) == DEFAULT_SIZE;
  }

  method CreateTable<K(==,!new), V>(f: Family<K, V>)
    requires Sound(f)
    modifies f
    ensures Sound(f) && f.OnlyGrows()
    ensures IsStep(f.hashing, old(View(f)), Call<K, V>.Create, View(f), Done)
  {
    hide Family.TableOk, Pool.Valid, Hashing.Lawful, Family.Counts, ValueOf, ListingOf, DistinctKeys, IsListed;
    var t := NewDictionary(f);
    forall u {:trigger Member(f, u)} | u in f.tables
      ensures Member(f, u) && f.TableOk(u) && SnapshotOf(u) == old(SnapshotOf(u))
    {
      assert old(Member(f, u));
    }
    f.tables := f.tables + [t];
    f.Joined(t);
    assert View(f) == old(View(f)) + [SnapshotOf(t)];
    assert Values(View(f)) == Values(old(View(f))) + [map[]];
    AllListed(f);
  }

  /** A call on a dictionary that does not exist does nothing. */
  lemma SkippedStep<K(!new), V>(f: Family<K, V>, call: Call<K, V>)
    requires Sound(f) && !call.Create? && |f.tables| <= call.i
    ensures IsStep(f.hashing, View(f), call, View(f), Done)
  {
    hide Sound, View, IsListed;
    AllListed(f);
  }

  method Execute<K(==,!new), V>(f: Family<K, V>, call: Call<K, V>) returns (a: Answer<K, V>)
    requires Sound(f)
    modifies f.Footprint()
    ensures Sound(f) && f.OnlyGrows()
    ensures IsStep(f.hashing, old(View(f)), call, View(f), a)
  {
    hide HashTable.Valid, Pool.Valid, Family.TableOk, Family.Counts, View, Member, IsStep;
    a := Done;
    if call.Create? {
      CreateTable(f);
    } else if call.i < |f.tables| {
      a := CallAt(f, call);
    } else {
      SkippedStep(f, call);
    }
  }

  /**
   Whatever the calls and their order: the dictionaries are those of the abstract run, nodes allocated are nodes free
   plus nodes stored, and every answer is right for the dictionary, and the order of its indices, at the moment of the
   call.
   */
  method Run<K(==,!new), V>(f: Family<K, V>, calls: seq<Call<K, V>>)
    returns (answers: seq<Answer<K, V>>, ghost states: seq<seq<Snapshot<K, V>>>)
    requires Sound(f)
    modifies f.Footprint()
    ensures Sound(f) && f.OnlyGrows()
    ensures IsRun(f.hashing, calls, states, answers)
    ensures states[0] == old(View(f)) && states[|calls|] == View(f)
    ensures Values(View(f)) == Effects(f.hashing, Values(old(View(f))), calls)
  {
    hide Sound, View, IsStep, Effects, Values;
    answers, states := [], [View(f)];
    for n := 0 to |calls|
      invariant Sound(f) && f.OnlyGrows()
      invariant IsRun(f.hashing, calls[..n], states, answers)
      invariant states[0] == old(View(f)) && states[n] == View(f)
    {
      var a := Execute(f, calls[n]);
      OneMoreStep(f.hashing, calls[..n], states, answers, calls[n], View(f), a);
      assert calls[..n + 1] == calls[..n] + [calls[n]];
      answers, states := answers + [a], states + [View(f)];
    }
    assert calls[..|calls|] == calls;
    RunComputes(f.hashing, calls, states, answers, |calls|);
  }
}
