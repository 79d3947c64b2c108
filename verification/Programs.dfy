/**
 The registry together with the dictionaries of the types in it: every run that mixes the creation of dictionaries of
 many types with operations on those that are there.
 */
module Programs {
  import opened KeyedMaps
  import opened HashTables
  import opened Families
  import opened Registry
  import DictionaryFamilies

  type Call<K, V> = DictionaryFamilies.Call<K, V>
  type Answer<K, V> = DictionaryFamilies.Answer<K, V>
  type Dictionaries<K, V> = seq<DictionaryFamilies.Snapshot<K, V>>

  /** One step: a call on the dictionaries of a type, the creation of one among them. */
  datatype Action<T, K, V> = Action(ofType: T, call: Call<K, V>)

  ghost function Of<T, K(!new), V>(m: map<T, Dictionaries<K, V>>, t: T): Dictionaries<K, V> {
    if t in m then m[t] else []
  }

  /** What a step does is done to the dictionaries of its type, and to no others. */
  ghost predicate IsStep<T(!new), K(!new), V>(h: Hashing<K>, m: map<T, Dictionaries<K, V>>, a: Action<T, K, V>,
    after: map<T, Dictionaries<K, V>>, answer: Answer<K, V>)
  {
    && DictionaryFamilies.IsStep(h, Of(m, a.ofType), a.call, Of(after, a.ofType), answer)
    && (forall u :: u != a.ofType ==> Of(after, u) == Of(m, u))
    && after.Keys == m.Keys + if a.call.Create? then {a.ofType} else {}
  }

  ghost predicate IsRun<T(!new), K(!new), V>(h: Hashing<K>, actions: seq<Action<T, K, V>>,
    states: seq<map<T, Dictionaries<K, V>>>, answers: seq<Answer<K, V>>)
  {
    && |states| == |actions| + 1 && |answers| == |actions|
    && forall n :: 0 <= n < |actions| ==> IsStep(h, states[n], actions[n], states[n + 1], answers[n])
  }

  lemma OneMoreStep<T(!new), K(!new), V>(h: Hashing<K>, actions: seq<Action<T, K, V>>,
    states: seq<map<T, Dictionaries<K, V>>>, answers: seq<Answer<K, V>>, a: Action<T, K, V>,
    after: map<T, Dictionaries<K, V>>, answer: Answer<K, V>)
    requires IsRun(h, actions, states, answers) && IsStep(h, states[|actions|], a, after, answer)
    ensures IsRun(h, actions + [a], states + [after], answers + [answer])
  {
    hide IsStep;
  }

  /** A call where there are no dictionaries does nothing. */
  lemma NothingToCall<K(!new), V>(h: Hashing<K>, call: Call<K, V>)
    requires !call.Create?
    ensures DictionaryFamilies.IsStep(h, [], call, [], DictionaryFamilies.Done)
  {
    assert DictionaryFamilies.Values<K, V>([]) == [];
  }

  /** The calls of a run on the dictionaries of one type. */
  function CallsFor<T(==), K, V>(t: T, actions: seq<Action<T, K, V>>): seq<Call<K, V>> {
    if actions == [] then []
    else
      var a := actions[|actions| - 1];
      CallsFor(t, actions[..|actions| - 1]) + if a.ofType == t then [a.call] else []
  }

  lemma CallsForNext<T(!new), K(!new), V>(t: T, actions: seq<Action<T, K, V>>, n: nat)
    requires n < |actions|
    ensures CallsFor(t, actions[..n + 1]) ==
      CallsFor(t, actions[..n]) + if actions[n].ofType == t then [actions[n].call] else []
  {
    assert actions[..n + 1][..n] == actions[..n];
  }

  /** What one step makes of the dictionaries of type `t`. */
  lemma StepFor<T(!new), K(!new), V>(h: Hashing<K>, m: map<T, Dictionaries<K, V>>, a: Action<T, K, V>,
    after: map<T, Dictionaries<K, V>>, answer: Answer<K, V>, t: T)
    requires IsStep(h, m, a, after, answer)
    ensures DictionaryFamilies.Values(Of(after, t)) ==
      if a.ofType == t then DictionaryFamilies.Effect(h, DictionaryFamilies.Values(Of(m, t)), a.call)
      else DictionaryFamilies.Values(Of(m, t))
  {
  }

  lemma EffectsNext<K(!new), V>(h: Hashing<K>, ms: seq<map<K, V>>, calls: seq<Call<K, V>>, call: Call<K, V>)
    ensures DictionaryFamilies.Effects(h, ms, calls + [call]) ==
      DictionaryFamilies.Effect(h, DictionaryFamilies.Effects(h, ms, calls), call)
  {
    assert (calls + [call])[..|calls|] == calls;
  }

  /** The dictionaries of a type are what the calls for that type make of them, whatever is done for others. */
  lemma {:induction false} TypesAreIndependent<T(!new), K(!new), V>(h: Hashing<K>, actions: seq<Action<T, K, V>>,
    states: seq<map<T, Dictionaries<K, V>>>, answers: seq<Answer<K, V>>, t: T, n: nat)
    requires IsRun(h, actions, states, answers) && n <= |actions|
    ensures DictionaryFamilies.Values(Of(states[n], t)) ==
      DictionaryFamilies.Effects(h, DictionaryFamilies.Values(Of(states[0], t)), CallsFor(t, actions[..n]))
  {
    hide IsStep, Of, DictionaryFamilies.Values, DictionaryFamilies.Effect;
    if n > 0 {
      var k := n - 1;
      TypesAreIndependent(h, actions, states, answers, t, k);
      assert IsStep(h, states[k], actions[k], states[k + 1], answers[k]);
      StepFor(h, states[k], actions[k], states[k + 1], answers[k], t);
      CallsForNext(t, actions, k);
      EffectsNext(h, DictionaryFamilies.Values(Of(states[0], t)), CallsFor(t, actions[..k]), actions[k].call);
      assert CallsFor(t, actions[..k]) + [] == CallsFor(t, actions[..k]);
    } else {
      assert actions[..0] == [];
    }
  }

  twostate predicate NotTouched<K(!new), V>(f: Family<K, V>)
    reads *
  {
    unchanged(old(f.Footprint()))
  }

  /** A family of which nothing was touched. */
  twostate lemma FamilyStays<K(!new), V>(f: Family<K, V>)
    requires old(DictionaryFamilies.Sound(f)) && NotTouched(f)
    ensures DictionaryFamilies.Sound(f) && f.Footprint() == old(f.Footprint())
    ensures DictionaryFamilies.View(f) == old(DictionaryFamilies.View(f))
  {
  }

  lemma FootprintIsAllocated<K(!new), V>(f: Family<K, V>)
    ensures forall o :: o in f.Footprint() ==> allocated(o)
  {
  }

  twostate lemma FootprintWasAllocated<K(!new), V>(f: Family<K, V>)
    ensures forall o :: o in old(f.Footprint()) ==> !fresh(o)
  {
  }

  class Program<T(==,!new), K(==,!new), V> {
    const registry: Registry<T, K, V>
    const hashing: Hashing<K>
    const blankItem: V
    const blankKey: K
    /** The dictionaries of each type. */
    var families: map<T, Family<K, V>>

    /** The registry's type has no dictionaries here; every other type in the registry has its own, on its free list. */
    ghost predicate Matches()
      requires registry.Valid()
      reads this, registry.Footprint()
    {
      && registry.ownType !in families
      && (forall t :: t in families <==> t in registry.View() && registry.View()[t].For?)
      && (forall t :: t in families ==> registry.View()[t] == For(families[t].pool))
    }

    /** What belongs to the dictionaries of one type belongs to no other, nor to the registry. */
    ghost predicate FamiliesApart()
      reads *
    {
      && this !in registry.Footprint()
      && (forall t :: t in families ==> families[t].Footprint() !! registry.Footprint())
      && (forall t :: t in families ==> this !in families[t].Footprint())
      && (forall t, u :: t in families && u in families && t != u ==>
            families[t].Footprint() !! families[u].Footprint())
    }

    ghost predicate FamiliesSound()
      reads *
    {
      forall t :: t in families ==> DictionaryFamilies.Sound(families[t]) && families[t].hashing == hashing
    }

    ghost predicate Valid()
      reads *
    {
      hashing.Lawful() && registry.Valid() && Matches() && FamiliesApart() && FamiliesSound()
    }

    /** The abstract value. */
    ghost function View(): map<T, Dictionaries<K, V>>
      reads *
    {
      map t | t in families :: DictionaryFamilies.View(families[t])
    }

    constructor (h: Hashing<T>, ownType: T, keys: Hashing<K>, blankItem: V, blankKey: K)
      requires h.Lawful() && (forall x, y :: h.isEqual(x, y) ==> x == y) && keys.Lawful()
      ensures Valid() && View() == map[] && hashing == keys
    {
      registry := new Registry(h, ownType);
      hashing, this.blankItem, this.blankKey, families := keys, blankItem, blankKey, map[];
    }

    /** Everything that the dictionaries consist of. */
    ghost function Parts(): set<object>
      reads *
    {
      set t, o | t in families && o in families[t].Footprint() :: o
    }

    lemma PartsAreAllocated()
      ensures forall t :: t in families ==> forall o :: o in families[t].Footprint() ==> allocated(o)
      ensures forall o :: o in registry.Footprint() ==> allocated(o)
    {
      forall t | t in families ensures forall o :: o in families[t].Footprint() ==> allocated(o) {
        FootprintIsAllocated(families[t]);
      }
    }

    /** The families of other types, of which nothing was touched. */
    twostate predicate OthersStay(t: T)
      reads *
    {
      forall u :: u in old(families) && u != t ==>
        && u in families && families[u] == old(families[u]) && DictionaryFamilies.Sound(families[u])
        && families[u].Footprint() == old(families[u].Footprint())
        && DictionaryFamilies.View(families[u]) == old(DictionaryFamilies.View(families[u]))
    }

    twostate lemma OthersUntouched(t: T)
      requires old(FamiliesSound())
      requires forall u :: u in old(families) && u != t ==>
        u in families && families[u] == old(families[u]) && NotTouched(families[u])
      ensures OthersStay(t)
    {
      hide DictionaryFamilies.Sound, DictionaryFamilies.View, Family.Footprint, NotTouched;
      forall u | u in old(families) && u != t
        ensures DictionaryFamilies.Sound(families[u]) && families[u].Footprint() == old(families[u].Footprint())
        ensures DictionaryFamilies.View(families[u]) == old(DictionaryFamilies.View(families[u]))
      {
        FamilyStays(families[u]);
      }
    }

    /** A call on the dictionaries of a type that has some. */
    method CallOn(t: T, call: Call<K, V>) returns (a: Answer<K, V>)
      requires Valid() && t in families
      modifies families[t].Footprint()
      ensures Valid() && families == old(families) && registry.Footprint() == old(registry.Footprint())
      ensures forall o :: o in Parts() ==> o in old(Parts()) || fresh(o)
      ensures IsStep(hashing, old(View()), Action(t, call), View(), a)
    {
      hide Hashing.Lawful, Registry.Valid, Registry.View, Family.Footprint, DictionaryFamilies.Sound;
      hide DictionaryFamilies.IsStep, DictionaryFamilies.View;
      PartsAreAllocated();
      a := DictionaryFamilies.Execute(families[t], call);
      assert registry.Valid() && registry.Footprint() == old(registry.Footprint());
      forall u | u in families && u != t ensures NotTouched(families[u]) {
        assert old(families[u].Footprint() !! families[t].Footprint());
      }
      OthersUntouched(t);
    }

    /** A free list that nothing of the program uses yet. */
    ghost predicate Unused(pool: Pool<K, V>)
      reads *
    {
      && pool.Valid() && pool.free == [] && pool.created == 0 && pool !in registry.Footprint()
      && forall t :: t in families ==> pool !in families[t].Footprint()
    }

    lemma OwnFootprint()
      ensures registry in registry.Footprint()
    {
    }

    /** The registry gained something, and what the program has so far was not touched. */
    twostate lemma Untouched()
      requires old(Valid()) && families == old(families) && registry.OnlyGrows()
      requires forall u :: u in families ==> NotTouched(families[u])
      ensures FamiliesApart() && FamiliesSound() && View() == old(View()) && Parts() == old(Parts())
      ensures forall u :: u in families ==> families[u].Footprint() == old(families[u].Footprint())
    {
      hide Hashing.Lawful, Registry.Valid, Registry.View, Registry.Footprint, Family.Footprint;
      hide DictionaryFamilies.Sound, DictionaryFamilies.View;
      forall u | u in families
        ensures DictionaryFamilies.Sound(families[u]) && families[u].Footprint() == old(families[u].Footprint())
        ensures DictionaryFamilies.View(families[u]) == old(DictionaryFamilies.View(families[u]))
      {
        FamilyStays(families[u]);
      }
      forall u | u in families ensures families[u].Footprint() !! registry.Footprint() {
        FootprintWasAllocated(families[u]);
      }
    }

    /** Asks the registry. */
    method FreeListFor(t: T) returns (pool: Pool<K, V>)
      requires Valid() && t != registry.ownType
      modifies registry.Footprint()
      ensures registry.Valid() && registry.OnlyGrows() && FamiliesApart() && FamiliesSound()
      ensures registry.View().Keys == old(registry.View().Keys) + {registry.ownType, t}
      ensures registry.View()[t] == For(pool) && registry.View()[registry.ownType].Own?
      ensures forall u :: u in old(registry.View()) ==> registry.View()[u] == old(registry.View()[u])
      ensures families == old(families) && (t !in families ==> Unused(pool) && fresh(pool))
      ensures View() == old(View()) && Parts() == old(Parts())
    {
      hide Hashing.Lawful, Registry.Valid, Registry.View, Registry.Footprint, Family.Footprint, Pool.Valid;
      hide DictionaryFamilies.Sound, DictionaryFamilies.View, FamiliesSound;
      PartsAreAllocated();
      OwnFootprint();
      registry.OneEntryPerType();
      var ref := registry.FreeNodesOf(t);
      registry.OneEntryPerType();
      pool := ref.pool;
      forall u | u in families ensures NotTouched(families[u]) {
        assert old(families[u].Footprint() !! registry.Footprint());
      }
      assert families == old(families);
      hide FamiliesApart;
      Untouched();
      forall u | u in families && fresh(pool) ensures pool !in families[u].Footprint() {
        FootprintWasAllocated(families[u]);
      }
    }

    /** No dictionaries yet, on a free list that is there. */
    method NoDictionaries(pool: Pool<K, V>) returns (f: Family<K, V>)
      requires hashing.Lawful() && pool.Valid() && pool.free == [] && pool.created == 0
      ensures DictionaryFamilies.Sound(f) && f.hashing == hashing && f.pool == pool && DictionaryFamilies.View(f) == []
      ensures forall o :: o in f.Footprint() ==> fresh(o) || o == pool
    {
      f := new Family.OnPool(hashing, pool, blankItem, blankKey);
    }

    /** What becomes of the whole when a type that was not there joins. */
    twostate lemma Joined(new t: T, pool: Pool<K, V>, new f: Family<K, V>)
      requires old(FamiliesApart()) && old(FamiliesSound()) && old(Unused(pool))
      requires t !in old(families) && families == old(families)[t := f] && OthersStay(t)
      requires registry.Footprint() == old(registry.Footprint())
      requires forall o :: o in f.Footprint() ==> fresh(o) || o == pool
      requires DictionaryFamilies.Sound(f) && f.hashing == hashing && DictionaryFamilies.View(f) == []
      ensures FamiliesApart() && FamiliesSound() && View() == old(View())[t := []]
      ensures forall o :: o in Parts() ==> o in old(Parts()) || fresh(o) || o == pool
    {
      hide Registry.Footprint, Family.Footprint, DictionaryFamilies.Sound, DictionaryFamilies.View, Pool.Valid;
      forall u | u in old(families) ensures forall o :: o in old(families[u].Footprint()) ==> !fresh(o) {
        FootprintWasAllocated(old(families[u]));
      }
      assert forall o :: o in registry.Footprint() ==> !fresh(o) by {
        RegistryWasAllocated();
      }
    }

    lemma OutsideItsParts()
      requires FamiliesApart()
      ensures this !in registry.Footprint() && forall t :: t in families ==> this !in families[t].Footprint()
    {
    }

    twostate lemma RegistryWasAllocated()
      ensures forall o :: o in old(registry.Footprint()) ==> !fresh(o)
    {
    }

    /** A type gets its free list, and dictionaries, of which there are none yet. */
    method Join(t: T, pool: Pool<K, V>)
      requires registry.Valid() && FamiliesApart() && FamiliesSound() && hashing.Lawful()
      requires t !in families && Unused(pool)
      modifies this
      ensures registry.Valid() && registry.Footprint() == old(registry.Footprint())
      ensures registry.View() == old(registry.View())
      ensures FamiliesApart() && FamiliesSound()
      ensures t in families && families[t].pool == pool && families == old(families)[t := families[t]]
      ensures forall o :: o in Parts() ==> o in old(Parts()) || fresh(o) || o == pool
      ensures View() == old(View())[t := []]
    {
      hide Hashing.Lawful, Registry.Valid, Registry.View, Family.Footprint, Pool.Valid;
      hide DictionaryFamilies.Sound, DictionaryFamilies.View, FamiliesApart, FamiliesSound, Parts;
      OutsideItsParts();
      PartsAreAllocated();
      var f := NoDictionaries(pool);
      families := families[t := f];
      forall u | u in old(families) ensures NotTouched(families[u]) {
        assert this !in old(families[u].Footprint());
      }
      OthersUntouched(t);
      Joined(t, pool, f);
    }

    /** The free list of a type and its dictionaries, of which there are none yet when the type is new. */
    method Prepare(t: T)
      requires Valid() && t != registry.ownType
      modifies this, registry.Footprint()
      ensures Valid() && families.Keys == old(families.Keys) + {t}
      ensures registry.OnlyGrows()
      ensures forall o :: o in Parts() ==> o in old(Parts()) || fresh(o)
      ensures forall u :: Of(View(), u) == Of(old(View()), u)
    {
      hide Hashing.Lawful, Registry.Valid, Registry.View, Registry.Footprint, Family.Footprint;
      hide DictionaryFamilies.Sound, DictionaryFamilies.View, Pool.Valid, FamiliesApart, FamiliesSound, Parts;
      var pool := FreeListFor(t);
      if t !in families {
        Join(t, pool);
      }
    }

    /** One step: a creation asks the registry first; a call for a type without dictionaries does nothing. */
    method Execute(a: Action<T, K, V>) returns (answer: Answer<K, V>)
      requires Valid() && a != Action(registry.ownType, DictionaryFamilies.Create)
      modifies this, registry.Footprint(), Parts()
      ensures Valid() && registry.OnlyGrows()
      ensures forall o :: o in Parts() ==> o in old(Parts()) || fresh(o)
      ensures IsStep(hashing, old(View()), a, View(), answer)
    {
      hide Hashing.Lawful, Registry.Valid, Registry.View, Registry.Footprint, Family.Footprint, Matches;
      hide DictionaryFamilies.Sound, DictionaryFamilies.View, FamiliesApart, FamiliesSound, DictionaryFamilies.IsStep;
      if a.call.Create? {
        Prepare(a.ofType);
        answer := CallOn(a.ofType, a.call);
      } else if a.ofType in families {
        answer := CallOn(a.ofType, a.call);
      } else {
        answer := DictionaryFamilies.Done;
        NothingToCall(hashing, a.call);
      }
    }

    /**
     Whatever the actions, their types and their order: every step does what its call does to the dictionaries of its
     type and leaves those of other types alone, every dictionary stays well formed, and the types go on having
     separate free lists with balanced accounts.
     */
    method Run(actions: seq<Action<T, K, V>>)
      returns (answers: seq<Answer<K, V>>, ghost states: seq<map<T, Dictionaries<K, V>>>)
      requires Valid() && forall a :: a in actions ==> a != Action(registry.ownType, DictionaryFamilies.Create)
      modifies this, registry.Footprint(), Parts()
      ensures Valid() && registry.OnlyGrows()
      ensures forall o :: o in Parts() ==> o in old(Parts()) || fresh(o)
      ensures IsRun(hashing, actions, states, answers)
      ensures states[0] == old(View()) && states[|actions|] == View()
      ensures forall t ::
        DictionaryFamilies.Values(Of(View(), t)) ==
        DictionaryFamilies.Effects(hashing, DictionaryFamilies.Values(Of(old(View()), t)), CallsFor(t, actions))
    {
      hide Valid, View, Parts, Registry.Footprint, IsStep, CallsFor, Of, DictionaryFamilies.Effects;
      answers, states := [], [View()];
      for n := 0 to |actions|
        invariant Valid() && registry.OnlyGrows()
        invariant forall o :: o in Parts() ==> o in old(Parts()) || fresh(o)
        invariant IsRun(hashing, actions[..n], states, answers)
        invariant states[0] == old(View()) && states[n] == View()
      {
        assert actions[n] in actions;
        var a := Execute(actions[n]);
        OneMoreStep(hashing, actions[..n], states, answers, actions[n], View(), a);
        assert actions[..n + 1] == actions[..n] + [actions[n]];
        answers, states := answers + [a], states + [View()];
      }
      assert actions[..|actions|] == actions;
      forall t
        ensures DictionaryFamilies.Values(Of(View(), t)) ==
          DictionaryFamilies.Effects(hashing, DictionaryFamilies.Values(Of(old(View()), t)), CallsFor(t, actions))
      {
        TypesAreIndependent(hashing, actions, states, answers, t, |actions|);
      }
    }
  }
}
