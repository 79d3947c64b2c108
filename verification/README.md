# Containers, sorting and big-integer arithmetic of the Liberty Eiffel runtime

The project models the runtime algorithms of Liberty Eiffel as they appear in its generated C code, together
with the Eiffel classes that state what they promise, and proves that they keep those promises or exactly when
they do.

- `HashTableSize`, `Chains`, `KeyedMaps`, `HashTables`, `HashedSets`, `Families`: the chained hash tables behind
  HASHED_DICTIONARY and HASHED_SET, with growth in place, the shared pool of recycled nodes and the cursor that
  makes reading by index cheap. A table refines a finite map modulo key equality. `Families` holds
  what any number of tables on one pool have in common; `PoolRuns` proves the refinement for every run on such
  sets, `DictionaryFamilies` for every run on such dictionaries, reads included, and `DictionaryRuns` for runs of
  `put` and the walk by index.
- `Registry`: the dictionary that holds one free list per generating type and bootstraps itself. `Programs` puts
  it together with the dictionaries of the types in it, for every run of creations and calls.
- `RingArrays`, `RingRuns`: RING_ARRAY, whose growth opens a gap at the wrap point and squeezes it out from the
  cheaper side. Every run refines a sequence with a movable lower bound.
- `Sorting`: the quicksort behind all sorters, its `is_sorted` shortcut, and what happens for inconsistent
  comparators and for the default one.
- `Int32`, `Limbs`, `Magnitudes`, `Shifts`, `LongDivision`, `BigDivision`, `BigAddition`, `BigSubtraction`,
  `BigMultiplication`, `SignedDivision`: the 32-bit limb primitives and the loops of MUTABLE_BIG_INTEGER that chain
  them, up to signed multiplication and division of any two numbers.
- `Environment`: how the environment of a child process is merged from the inherited and the added entries.

A chain is listed in ghost state from its end up to its head, so that pushing a node appends to the list. Each
node records its owner (a bucket array or a pool), its chain and its height; that two tables, or a table and a
free list, share no node follows from the owner alone.

Assumptions: hash codes are non-negative, keys are not modified while stored, and `Hashing.Lawful` holds, that
is, equality is an equivalence relation and equal keys have equal hash codes. Type names are equal only when
they are identical. A comparator is a pure total function. `realloc` and `calloc` of native arrays keep the
prefix and blank the rest. Counters such as `count` and `generation` are unbounded, and a ring array stays
below 2^30 slots, where doubling cannot wrap. Elements and keys are not Void.

## Where the code and its promises disagree

The model follows the code.

- `fast_add` promises the same counting as `add`, in terms of `has`. It adds an element that is equal but not
  identical to a stored one (`HashedSets.FastAddPromise`).
- `make` of a hashed set promises the default capacity; on a set in use it only clears (`HashedSets.Make`).
- `sort` promises that `is_sorted` holds afterwards. That can be kept exactly for asymmetric comparators
  (`Sorting.Sort`, `Sorting.AsymmetryIsNeeded`); the default one is not (`Sorting.DefaultIsNeverSorted`). Since
  `is_sorted` looks at neighbours only, a collection that passes it may still have a pair out of order: for a
  strict order exactly when it was left alone in that state (`Sorting.Sort`), and never exactly for the strict
  weak orders (`Sorting.WeakIsNeeded`, with an example in `Sorting.PartialOrderIsNotEnough`).
- The default comparator is described as leaving collections unsorted, that is, as they are. It keeps pairwise
  different items exactly up to three (`Sorting.DefaultKeepsExactly`).
- Subtraction of two big integers of one length removes at most one leading zero limb, although the class
  invariant allows none (`BigSubtraction.SubtractSameLength`, `BigSubtraction.LeadingZeroHappens`). Signed division
  inherits this in its remainder (`SignedDivision.DivideTo`, `SignedDivision.RemainderKeepsLeadingZero`).
- Subtraction from a big integer that does not start at the front of its storage, as a right shift by 32 leaves
  it, does not move the limbs above the last borrow (`BigSubtraction.SubtractRaw`,
  `BigSubtraction.StaleLimbsHappen`), and the reversed subtraction resets the start exactly when the borrow reached the
  top limb (`BigSubtraction.SubtractRawReverse`, with an example in `BigSubtraction.StartNotReset`). When the
  storage is replaced, the capacity on record is not (`BigSubtraction.SubtractMagnitude`,
  `BigSubtraction.CapacityNotUpdated`).
- Addition checks that the carry has a place after it has stored it; the new capacity may leave none
  (`BigAddition.AddMagnitude`, `BigAddition.CarryDoesNotFit`).
- Signed division gives the quotient zero a negative sign for a positive dividend smaller than a negative divisor,
  which the class invariant forbids (`SignedDivision.DivideTo`, `SignedDivision.NegativeZeroHappens`). The remainder of
  a negative dividend can have more limbs than the capacity on record (`SignedDivision.DivideTo`,
  `SignedDivision.RemainderOutgrows`). One object for quotient and remainder is accepted, but the promise can
  then be kept only where they are the same number (`SignedDivision.OneObjectForBoth`).
- `multiply_to` requires its result to differ from the first factor only. With the second factor as result it sets
  that factor to zero before it reads its length, and the loop over its limbs starts behind its end
  (`BigMultiplication.RowsPastTheEnd`). `BigMultiplication.MultiplyTo` says exactly when the product is right, and
  `BigMultiplication.ResultIsAFactor` has two inputs for which it is not. The second of them is a first factor of one:
  `copy` into itself sets the start to the front without moving the limbs.
- `shift_right` is said to leave the number in normal form. It leaves a negative number that becomes zero negative,
  and a shift by more words than there are leaves a negative length (`Shifts.ShiftRightBy`, `Shifts.RightShiftFails`).

## Model

| member | source | states |
|---|---|---|
| HashTableSize.PrimeNumberCeiling | resources/smarteiffel-germ/compile_to_c10.c:103-253 | the result is a table entry and not below the argument |
| HashTableSize.CeilingIsLeast | resources/smarteiffel-germ/compile_to_c10.c:103-253 | no table entry that is large enough is smaller than the one the decision tree selects |
| HashTableSize.PrimeCapacity | resources/smarteiffel-germ/compile_to_c10.c:62-72 | every capacity a container is given is a table entry and at least the size asked for, also where the 32-bit sum is negative |
| HashTableSize.PrimeCapacityIsLeast | resources/smarteiffel-germ/compile_to_c10.c:62-72 | the capacity is the least entry that is half as much again, and the largest entry when that sum does not fit a word |
| HashTableSize.GrowthTakesNextEntry | resources/smarteiffel-germ/compile_to_c10.c:254-261 | growing moves from each entry to the very next one, also for the last step, whose 32-bit sum wraps to a negative number |
| HashTableSize.GrowsToNext | resources/smarteiffel-germ/compile_to_c10.c:80-91 | the capacity stays up to two nodes per three buckets, counted in whole thirds, and at the largest entry; beyond it becomes the next entry |
| HashTableSize.GrowthLeavesRoom | resources/smarteiffel-germ/compile_to_c10.c:80-91 | one growth step raises the load threshold, so one more node fits whatever entry the capacity was |
| Chains.EnumerateAt | resources/smarteiffel-germ/compile_to_c10.c:2229-2262 | the rank of a link (links of earlier chains, then links before it in its own chain) is its index in the bucket-by-bucket walk |
| Chains.EnumerateOnto | resources/smarteiffel-germ/compile_to_c10.c:2229-2262 | every index below the number of links is the rank of some link |
| HashTables.Pool.NewNode | resources/smarteiffel-germ/compile_to_c10.c:28-46 | takes the top node of the free list, or allocates and counts one when the list is empty; the rest of the list is untouched |
| HashTables.Pool.DisposeNode | resources/smarteiffel-germ/compile_to_c10.c:1334-1341 | the node becomes the new top of the free list, cleared; its old successor is returned |
| HashTables.Pool.DisposeChain | resources/smarteiffel-germ/compile_to_c10.c:1352-1356 | a detached chain joins the free list whole: nothing is lost, nothing allocated, and the loop ends |
| HashTables.HashTable.Relink | resources/smarteiffel-germ/compile_to_c10.c:1783-1786 | one node leaves the front of its old chain for the front of the chain number hash modulo capacity of the new array; all other nodes stay in place |
| HashTables.HashTable.RelinkChain | resources/smarteiffel-germ/compile_to_c10.c:1780-1787 | the inner loop empties exactly one old chain into the new array, its nodes going from the head on in front of the chains that their hashes select |
| HashTables.HashTable.RelinkAll | resources/smarteiffel-germ/compile_to_c10.c:1776-1789 | the outer loop empties all old chains, from the last one down; the new ones gain all of their nodes, in the order of that scan |
| HashTables.HashTable.IncreaseCapacity | resources/smarteiffel-germ/compile_to_c10.c:1764-1790 | every node is in the bucket that is its hash code modulo the new capacity, no node is lost, doubled or allocated, each chain has its nodes in the exact order the scan gives, and the cursor is off |
| HashTables.RegrownOrder | resources/smarteiffel-germ/compile_to_c10.c:1774-1789 | inside a bucket after growth, entries from different old buckets keep the order of those buckets, and entries from one old bucket are reversed |
| HashTables.HashTable.Insert | resources/smarteiffel-germ/compile_to_c10.c:48-60 | the map gains exactly one entry; the capacity stays as long as not more than two nodes per three buckets are stored and then becomes the next entry; the node goes in front of the chain number hash modulo capacity, so that without growth all other entries keep their order by index; the pool account still holds |
| HashTables.HashTable.Put | resources/smarteiffel-germ/compile_to_c10.c:1469-1503 | only the item of a key that is identical or equal changes; a key that is neither gets an entry of its own, whatever its hash code, and only then can the table grow |
| HashTables.HashTable.Add | resources/smarteiffel-germ/compile_to_c10.c:3403-3415 | for an absent key, the map gains the pair |
| HashTables.HashTable.Has | resources/smarteiffel-germ/compile_to_c10.c:1802-1823 | true exactly when a stored key is identical or equal |
| HashTables.HashTable.FastHas | resources/smarteiffel-germ/compile_to_c10.c:2524-2545 | true exactly when this very object is stored |
| HashTables.HashTable.ReferenceAt | resources/smarteiffel-germ/compile_to_c10.c:492-515 | the item of the key that is identical or equal, or nothing when there is none |
| HashTables.HashTable.FastReferenceAt | resources/smarteiffel-germ/compile_to_c10.c:292-315 | the item stored under this very key object, or nothing |
| HashTables.HashTable.FindPresent | resources/smarteiffel-germ/compile_to_c10.c:1525-1550 | the walk without a test for Void ends, because an equal key is in the chain it follows |
| HashTables.HashTable.At | resources/smarteiffel-germ/compile_to_c10.c:1525-1537 | the item of the key that is identical or equal; the result does not depend on which equal key is asked for |
| HashTables.HashTable.InternalKey | resources/smarteiffel-germ/compile_to_c10.c:1539-1550 | the key object that is actually stored and is identical or equal to the one asked for |
| HashTables.HashTable.ScanBuckets | resources/smarteiffel-germ/compile_to_c10.c:2233-2237 | skipping empty buckets never leaves the array, because a node of the wanted rank is still ahead |
| HashTables.HashTable.SetCacheUser | resources/smarteiffel-germ/compile_to_c10.c:2229-2262 | for any order of requests the cursor ends on the node whose rank is the index; recursion and loops terminate |
| HashTables.HashTable.ListingIsView | resources/smarteiffel-germ/compile_to_c10.c:3376-3381 | the walk from 1 to count meets every stored key exactly once, with its item, and nothing else |
| HashTables.HashTable.BucketOrder | resources/smarteiffel-germ/compile_to_c10.c:2229-2262 | the walk by index goes by hash code modulo capacity, in ascending order |
| HashTables.HashTable.Key | resources/smarteiffel-germ/compile_to_c10.c:3376-3381 | the key of the given rank, whatever the cursor did before |
| HashTables.HashTable.Item | resources/smarteiffel-germ/compile_to_c10.c:3697-3702 | the item of the given rank, whatever the cursor did before |
| HashTables.HashTable.CreateWithCapacity | resources/smarteiffel-germ/compile_to_c10.c:1362-1381 | an empty, well-formed table on a fresh bucket array; a set that has a pool keeps it |
| HashTables.HashTable.ClearCount | resources/smarteiffel-germ/compile_to_c10.c:1343-1360 | the table is empty and all of its nodes are on the free list: nodes allocated still equal nodes free plus nodes stored |
| KeyedMaps.PutKeepsKeys | resources/smarteiffel-germ/compile_to_c10.c:1469-1503 | putting never stores two equal keys and never replaces a stored key object |
| KeyedMaps.PutIsUpdate | resources/smarteiffel-germ/compile_to_c10.c:1469-1503 | key by key, in terms of identity and `is_equal` alone: what putting changes, keeps and adds |
| KeyedMaps.LookupIs | resources/smarteiffel-germ/compile_to_c10.c:1525-1592 | nothing is found exactly when every stored key is neither identical nor equal, and otherwise the item of the one that is |
| KeyedMaps.LookupAfterPut | resources/smarteiffel-germ/compile_to_c10.c:1469-1537 | putting changes the answer for the keys equal to the new one, and for no others |
| KeyedMaps.LastWriteWins | resources/smarteiffel-germ/compile_to_c10.c:1469-1537 | after any run of puts, reading gives the item of the last put under an equal key, and nothing when there was none |
| KeyedMaps.FirstKeyStays | resources/smarteiffel-germ/compile_to_c10.c:1469-1550 | after any run of puts, the stored key objects are exactly those used first among their equals |
| DictionaryRuns.PutAll | resources/smarteiffel-germ/compile_to_c10.c:1469-1503 | any run of puts on a table computes the abstract run, across any number of growth steps |
| DictionaryRuns.Walk | resources/smarteiffel-germ/compile_to_c10.c:3376-3464 | reading keys and items by index from 1 to count lists the abstract map: all keys, each once, each with its item; where no two stored keys are equal, the listed keys are pairwise not equal and `at` gives for each the item it is listed with |
| DictionaryFamilies.CallAt | resources/smarteiffel-germ/compile_to_c10.c:1469-1550 | a call on one dictionary changes or reads only that one, although all share the free list |
| DictionaryFamilies.EntryIn | resources/smarteiffel-germ/compile_to_c10.c:3431-3464 | a read by index, whatever the cursor did before, gives the entry that the order of the dictionary has at that index, and changes neither the value nor the order |
| DictionaryFamilies.RunComputes | resources/smarteiffel-germ/compile_to_c10.c:1469-1503 | the values of the dictionaries after each call of a run are those of the abstract run |
| DictionaryFamilies.AtFindsLast | resources/smarteiffel-germ/compile_to_c10.c:1469-1537 | after any run of put, add and clear_count on any number of dictionaries, `at` finds the item of the last put, or add that added, under an equal key since the dictionary was last emptied, and nothing when there was none |
| DictionaryFamilies.SameBetween | resources/smarteiffel-germ/compile_to_c10.c:3376-3464 | between two moments of a run with no change to a dictionary, it has the same value and the same order of indices |
| DictionaryFamilies.ReadsAgree | resources/smarteiffel-germ/compile_to_c10.c:3376-3464 | two reads by index of one dictionary with no change in between: the same index gives the same entry, different indices in range give different keys |
| DictionaryFamilies.Run | resources/smarteiffel-germ/compile_to_c10.c:3376-3464 | over every run that mixes put, add, clear_count, `at` and reads by index on any number of dictionaries with one pool: the dictionaries are those of the abstract run, every answer is right for the value and the order of indices at its moment, a call changes only its own dictionary, nodes allocated equal nodes free plus nodes stored |
| HashedSets.IncludeIsInsertion | src/lib/storage/set.e:30-42 | `add` behaves as mathematical insertion under equality and keeps the three promises of the set class |
| HashedSets.FastAddPromise | src/lib/storage/set.e:44-53 | the counting promise of `fast_add` holds if and only if the element is stored itself or nothing equal to it is stored |
| HashedSets.FastAddPromiseFails | src/lib/storage/set.e:44-53 | an element equal to a stored one without being it, for which the promise fails |
| HashedSets.Make | src/lib/storage/set/abstract_hashed_set.e:60-74 | an empty set; the promised default capacity is reached if and only if the set was new or had it already |
| HashedSets.MakePromiseFails | src/lib/storage/set/abstract_hashed_set.e:60-74 | a set in use, made with capacity 97, for which the promised capacity is not reached |
| HashedSets.WithCapacity | resources/smarteiffel-germ/compile_to_c10.c:2547-2550 | an empty set of at least the size asked for; on a live set the old nodes are neither free nor stored, so the pool account is short by the old count |
| HashedSets.Add | resources/smarteiffel-germ/compile_to_c10.c:1103-1134 | the element joins unless an identical or equal one is stored, whatever the hash codes, and only then can the capacity change, to the next entry |
| HashedSets.FastAdd | resources/smarteiffel-germ/compile_to_c10.c:2562-2593 | the stored elements are the old ones plus this very object |
| PoolRuns.HasIffAdded | resources/smarteiffel-germ/compile_to_c10.c:1103-1134 | after any run of calls, an element is found exactly when an equal one was added since the set was last emptied |
| Families.Family.TablesApart | resources/smarteiffel-germ/compile_to_c10.c:1073-1134 | no two tables of a family share a node or a bucket array, and none holds a node of the free list |
| PoolRuns.CallAt | resources/smarteiffel-germ/compile_to_c10.c:1073-1134 | a call on one set changes only that set, although all sets share the free list |
| PoolRuns.CreateSet | resources/smarteiffel-germ/compile_to_c10.c:1073-1081 | a set created in the middle of a run is empty and joins the same account |
| PoolRuns.Run | resources/smarteiffel-germ/compile_to_c10.c:1073-1409 | over every run of make, add, fast_add and clear_count on any number of sets with one pool: chains stay acyclic and disjoint, nodes allocated equal nodes free plus nodes stored, and the sets are those of the abstract run |
| Registry.Registry.Bootstrap | resources/smarteiffel-germ/compile_to_c10.c:391-410 | the registry starts with one entry, its own free list under its own type |
| Registry.Registry.CommonFreeNodes | resources/smarteiffel-germ/compile_to_c10.c:391-410 | the first call builds the registry, later calls return the same one |
| Registry.Registry.Supply | resources/smarteiffel-germ/compile_to_c10.c:668-680 | a type without a free list gets one that no other type has, under a key that was absent, empty and apart from the registry |
| Registry.Registry.FreeNodesOf | resources/smarteiffel-germ/compile_to_c10.c:668-680 | the type has exactly one free list afterwards; those of all other types are the ones they were |
| Registry.Registry.CreateDictionary | resources/smarteiffel-germ/compile_to_c10.c:668-685 | a new dictionary of any type is empty and uses the free list that the registry holds for its type, of the registry's own type the registry's own |
| Registry.Registry.CreateNext | resources/smarteiffel-germ/compile_to_c10.c:668-685 | one more creation leaves every dictionary made earlier, empty or not, with its value and its free list |
| Registry.Registry.Run | resources/smarteiffel-germ/compile_to_c10.c:668-685 | over any run that creates dictionaries of arbitrary types all are usable, two share a free list exactly when their types coincide, and the registry holds one entry per type and its own |
| Programs.TypesAreIndependent | resources/smarteiffel-germ/compile_to_c10.c:668-685 | in a run over many types, the dictionaries of a type are those of the abstract run of the calls for that type alone |
| Programs.Program.CallOn | resources/smarteiffel-germ/compile_to_c10.c:668-685 | a call on the dictionaries of one type, a creation included, leaves the registry and the dictionaries of all other types as they are |
| Programs.Program.FreeListFor | resources/smarteiffel-germ/compile_to_c10.c:668-680 | asking the registry for a free list, known or new, leaves all dictionaries of all types as they are; a new one is used by nothing |
| Programs.Program.Run | resources/smarteiffel-germ/compile_to_c10.c:668-685 | over every run that mixes the creation of dictionaries of many types with put, add, clear_count, `at` and reads by index: every answer is right, the dictionaries of each type are those of its own abstract run, and each type has one free list, with a balanced account, apart from those of the others |
| RingArrays.RingArray.IndexIsInjective | resources/smarteiffel-germ/compile_to_c10.c:1936-1943 | storage slots of valid indices are in bounds and pairwise different |
| RingArrays.RingArray.WithCapacity | resources/smarteiffel-germ/compile_to_c10.c:1945-1954 | an empty array of at least the capacity asked for, from any earlier state |
| RingArrays.RingArray.Put | resources/smarteiffel-germ/compile_to_c10.c:1836-1839 | exactly one item changes |
| RingArrays.RingArray.Item | resources/smarteiffel-germ/compile_to_c10.c:1913-1917 | the item that the abstract sequence has at the index |
| RingArrays.RingArray.Move | resources/smarteiffel-germ/compile_to_c10.c:1841-1866 | overlap-safe for every distance: the items reappear in order, slots left behind hold the default, all others are unchanged |
| RingArrays.RingArray.SqueezeBubble | resources/smarteiffel-germ/compile_to_c10.c:1899-1911 | whichever side is moved, reading from the minimum meets the items before the gap and then those behind it |
| RingArrays.DoubledWindow | resources/smarteiffel-germ/compile_to_c10.c:1886-1889 | reallocating a full, wrapped storage opens the gap at the wrap point and nowhere else |
| RingArrays.RingArray.Double | resources/smarteiffel-germ/compile_to_c10.c:1884-1895 | doubling a full array leaves the sequence and its bounds unchanged, wherever it started in the storage |
| RingArrays.RingArray.MakeSpaceForOne | resources/smarteiffel-germ/compile_to_c10.c:1874-1897 | room for one more item, and the same sequence |
| RingArrays.RingArray.AddFirst | resources/smarteiffel-germ/compile_to_c10.c:1825-1834 | the sequence gets the item in front; `lower` stays |
| RingArrays.RingArray.AddLast | src/lib/storage/collection/ring_array.e:346-351 | the sequence gets the item at the end |
| RingArrays.RingArray.RemoveFirst | resources/smarteiffel-germ/compile_to_c10.c:1960-1967 | the sequence loses its first item and `lower` moves up |
| RingArrays.RingArray.Remove | src/lib/storage/collection/ring_array.e:298-312 | the sequence loses the item at the index, whether the front or the back is moved |
| RingArrays.RingArray.ClearCount | resources/smarteiffel-germ/compile_to_c10.c:1925-1928 | the sequence is empty and the storage stays |
| RingRuns.Run | resources/smarteiffel-germ/compile_to_c10.c:1825-1973 | over every run of calls the ring refines an indexed sequence, with its storage bounds intact |
| Sorting.Partition | resources/smarteiffel-germ/compile_to_c10.c:2616-2629 | for every comparator: stays in bounds, rearranges only the region, and leaves the lesser items before the pivot and the others behind it |
| Sorting.QuickSortRegion | resources/smarteiffel-germ/compile_to_c10.c:2612-2632 | terminates and rearranges only the region for every comparator whatsoever; leaves its neighbours in order for an asymmetric one, sorts it for a strict order |
| Sorting.QuickSort | resources/smarteiffel-germ/compile_to_c10.c:2640-2642 | a permutation for every comparator, sorted for a strict order |
| Sorting.IsSorted | resources/smarteiffel-germ/compile_to_c10.c:361-389 | true exactly when no item is less than its neighbour before it |
| Sorting.Sort | resources/smarteiffel-germ/compile_to_c10.c:2650-2654 | a permutation; input with neighbours in order is left alone; the promised test holds afterwards for every asymmetric comparator; for a strict order all pairs end in order if and only if neighbours were out of order or all pairs already in order |
| Sorting.AdjacentIsSorted | resources/smarteiffel-germ/compile_to_c10.c:361-389 | for a strict weak order, looking at neighbours is equivalent to looking at all pairs |
| Sorting.WeakIsNeeded | src/lib/sorting/abstract_sorter.e:145-157 | exactly the strict weak orders are the asymmetric comparators for which neighbours in order always mean all pairs in order |
| Sorting.AsymmetryIsNeeded | src/lib/sorting/abstract_sorter.e:154-157 | the promise that `is_sorted` holds can be kept on every two items if and only if the comparator is asymmetric |
| Sorting.PartialOrderIsNotEnough | src/lib/sorting/abstract_sorter.e:145-157 | for a strict order that is not weak, `sort` can accept a collection whose last item is less than its first |
| Sorting.DefaultIsNeverSorted | src/lib/sorting/abstract_sorter.e:155-157 | with the comparator a sorter has by default, the promise that the result is sorted holds exactly for fewer than two items |
| Sorting.DefaultKeepsThree | src/lib/sorting/comparator_collection_sorter.e:50-53 | with that comparator, collections of up to three items are left as they are |
| Sorting.DefaultMovesMiddle | src/lib/sorting/comparator_collection_sorter.e:50-53 | from four items on they are not: the item behind the middle ends up last |
| Sorting.DefaultKeepsExactly | src/lib/sorting/comparator_collection_sorter.e:50-53 | pairwise different items stay as they are if and only if there are at most three |
| Limbs.MbiInc | resources/smarteiffel-germ/compile_to_c1.c:1111-1118 | increment with its carry is exact |
| Limbs.MbiAdd | resources/smarteiffel-germ/compile_to_c1.c:1120-1128 | the wrapped word and the carry together are the exact sum |
| Limbs.MbiAddWithInc | resources/smarteiffel-germ/compile_to_c1.c:1130-1138 | the same with an incoming carry |
| Limbs.MbiDec | resources/smarteiffel-germ/compile_to_c1.c:1140-1147 | decrement with its borrow is exact |
| Limbs.MbiSubtract | resources/smarteiffel-germ/compile_to_c1.c:1149-1157 | the wrapped word and the borrow together are the exact difference |
| Limbs.MbiSubtractWithDec | resources/smarteiffel-germ/compile_to_c1.c:1159-1167 | the same with an incoming borrow |
| Limbs.MbiMultiply | resources/smarteiffel-germ/compile_to_c1.c:1169-1174 | the two words are the exact product |
| Limbs.MbiMultiplyWithAdd | resources/smarteiffel-germ/compile_to_c1.c:1176-1181 | product plus one word is exact: the 64-bit sum does not overflow |
| Limbs.MbiMultiplyWith2Add | resources/smarteiffel-germ/compile_to_c1.c:1183-1188 | product plus two words is exact: the 64-bit sum does not overflow |
| Limbs.MbiDivide | resources/smarteiffel-germ/compile_to_c1.c:1190-1195 | the remainder is below the divisor, and the truncated quotient is the true one exactly when the high word is below the divisor |
| Limbs.ProductFits | resources/smarteiffel-germ/compile_to_c1.c:1169-1188 | a product of two words leaves room in 64 bits for two more words, and for no wrap |
| Magnitudes.ValInjective | src/lib/numeric/mutable_big_integer.e:2086-2103 | limb strings of one length that stand for one number are the same |
| Magnitudes.ValNormalized | src/lib/numeric/mutable_big_integer.e:3214-3218 | the top limb is not zero exactly when the number needs all the limbs |
| Magnitudes.LimbsAreUnique | src/lib/numeric/mutable_big_integer.e:3214-3218 | a number has exactly one limb string that satisfies the class invariant |
| Magnitudes.AddInto | src/lib/numeric/mutable_big_integer.e:2533-2549 | the column loop, choosing the primitive by the carry, is exact addition with the right final carry, also in place |
| Magnitudes.CarryInto | src/lib/numeric/mutable_big_integer.e:2621-2648 | passing the carry up the longer number and copying the rest is exact |
| Magnitudes.SubtractInto | src/lib/numeric/mutable_big_integer.e:2740-2756 | the column loop, choosing the primitive by the borrow, is exact subtraction with the right final borrow |
| Magnitudes.MultiplyInto | src/lib/numeric/mutable_big_integer.e:1525-1542 | the first row is exact multiplication by one word |
| Magnitudes.MultiplyAddInto | src/lib/numeric/mutable_big_integer.e:1549-1562 | a later row is exact multiplication by one word onto the limbs that are there |
| BigMultiplication.MultiplyRows | src/lib/numeric/mutable_big_integer.e:1525-1563 | all rows together are exact multiplication for every pair of lengths, for a result in storage of its own; the last word stored is the top limb |
| BigMultiplication.RowsPastTheEnd | src/lib/numeric/mutable_big_integer.e:1523-1563 | with the second factor as result, whose length has just been set to zero, the loop over its limbs starts behind its end and leaves the storage, whatever the numbers |
| BigMultiplication.ProductLength | src/lib/numeric/mutable_big_integer.e:1565-1570 | a product of numbers without leading zeros has at most one leading zero limb, so looking at the top limb is enough for the class invariant |
| BigMultiplication.MultiplyToLikeHuman | src/lib/numeric/mutable_big_integer.e:1502-1571 | it ends inside the storage if and only if the result is not the second factor, and then leaves the exact product without leading zero |
| Magnitudes.Copy | src/lib/numeric/mutable_big_integer.e:2050-2065 | the limbs and the capacity after a copy; a number copied into itself is not moved to the front, where it is read from then on |
| Magnitudes.CapacityFromLowerBound | src/lib/numeric/mutable_big_integer.e:2994-3015 | the least power of two that is not below either bound |
| Magnitudes.CapacityFromUpperBound | src/lib/numeric/mutable_big_integer.e:3017-3036 | from a power of two, the least one from four up that is not below the need |
| BigMultiplication.CopyFactor | src/lib/numeric/mutable_big_integer.e:1253-1262 | the copied factor is right if and only if it was not copied into itself or its limbs are also found at the front of its storage |
| BigMultiplication.MultiplyTo | src/lib/numeric/mutable_big_integer.e:1242-1266 | for every pair of signed factors and every result that is not the first one: the signed product is right, without leading zero and not a negative zero, if and only if the result is not the second factor, a factor is zero, the second factor is one or minus one, or the first is and the second factor is found at the front of its storage |
| BigMultiplication.ResultIsAFactor | src/lib/numeric/mutable_big_integer.e:1246-1249 | two factors for which it fails although the written precondition holds, one for the general case and one for a first factor of one |
| Magnitudes.DivideOneWord | src/lib/numeric/mutable_big_integer.e:2254-2292 | feeding each remainder back as the next high word gives quotient and remainder of the whole number |
| Magnitudes.MultiplyWithSeed | resources/smarteiffel-germ/compile_to_c1.c:1176-1181 | a chain of `mbi_multiply_with_add` that starts from a seed is exact multiply and add |
| Magnitudes.DivideThenMultiply | resources/smarteiffel-germ/compile_to_c1.c:1176-1195 | dividing by a word and multiplying back with the remainder as seed restores every limb and carries nothing out |
| Shifts.ShiftedLeftIs | src/lib/numeric/mutable_big_integer.e:980-1008 | shifted limbs and the word that leaves at the top are together the product by the power of two |
| Shifts.ShiftDown | src/lib/numeric/mutable_big_integer.e:990-1006 | the loop from the top limb down is right in place as long as it does not move down, and into other storage |
| Shifts.ShiftUp | src/lib/numeric/mutable_big_integer.e:1022-1037 | the loop from the bottom limb up is right when the number moves to a lower place |
| Shifts.ShiftLeft | src/lib/numeric/mutable_big_integer.e:908-1153 | multiplies by any power of two for every start, length and capacity, and needs no limb more than the result has |
| Shifts.PrimitiveShiftRight | src/lib/numeric/mutable_big_integer.e:2218-2252 | the right shift by bits divides by the power of two, rounded down, moves the number to the front and leaves no leading zero |
| Shifts.ShiftRightBy | src/lib/numeric/mutable_big_integer.e:1159-1176 | the right shift divides by the power of two where it stays inside the number; the class invariant survives if and only if no more words leave than there are and a number that becomes zero was not negative |
| Shifts.RightShiftFails | src/lib/numeric/mutable_big_integer.e:3214-3219 | minus one shifted by a bit, left a negative zero, and one shifted by two words, left with a negative length |
| Shifts.NormalizingShift | src/lib/numeric/mutable_big_integer.e:2480-2500 | the shift count is the one that sets the top bit and loses none |
| LongDivision.TrialIsEnough | src/lib/numeric/mutable_big_integer.e:816-820 | the trial quotient of the leading words is never too small |
| LongDivision.TrialIsNear | src/lib/numeric/mutable_big_integer.e:816-820 | it is never more than two too large, because the top bit of the divisor is set |
| LongDivision.TrialCorrected | src/lib/numeric/mutable_big_integer.e:821-846 | the tests against the second divisor word leave it right or one too large |
| LongDivision.CorrectQuotient | src/lib/numeric/mutable_big_integer.e:821-846 | the word-wise tests decide as the exact comparison would, and never need a third correction |
| LongDivision.EstimateQuotient | src/lib/numeric/mutable_big_integer.e:816-847 | the estimate is the quotient word or one more, also when the leading words are equal |
| LongDivision.MultiplyAndSubtract | src/lib/numeric/mutable_big_integer.e:2368-2433 | the window becomes the exact difference, or its complement with a report that it is negative |
| LongDivision.AddBack | src/lib/numeric/mutable_big_integer.e:2435-2464 | adding the divisor back once always carries out and restores a remainder from zero up |
| LongDivision.DivideStep | src/lib/numeric/mutable_big_integer.e:816-864 | each turn stores the true quotient word and leaves the true remainder of its window |
| LongDivision.AccountedNext | src/lib/numeric/mutable_big_integer.e:865-868 | each turn keeps the account: dividend equals known quotient words times divisor plus what is left |
| LongDivision.DivideNormalized | src/lib/numeric/mutable_big_integer.e:775-869 | quotient and remainder of any two limb strings with a normalised divisor; the quotient keeps its storage when that is large enough, and else doubles its capacity until it is |
| BigDivision.AbsCompare | src/lib/numeric/mutable_big_integer.e:1713-1752 | compares the magnitudes, in both directions |
| BigDivision.QuotientLength | src/lib/numeric/mutable_big_integer.e:870-875 | a quotient has at most one leading zero limb, so removing one is enough |
| BigDivision.Normalize | src/lib/numeric/mutable_big_integer.e:2480-2500 | normalising a divisor multiplies it by a power of two, sets its top bit and keeps its number of limbs |
| BigDivision.Unnormalize | src/lib/numeric/mutable_big_integer.e:876-898 | the remainder without its leading zeros, shifted back, is the remainder of the unshifted numbers and has no leading zero |
| BigDivision.DivideMagnitudes | src/lib/numeric/mutable_big_integer.e:727-902 | for every dividend and every divisor but zero: quotient and remainder of the magnitudes are the Euclidean ones, have no leading zero limb and are in the storages of the results or in new ones; the remainder has room for the divisor unless it is the copied dividend |
| SignedDivision.SignsAreEuclidean | src/lib/numeric/mutable_big_integer.e:2294-2329 | for every combination of signs the corrected pair is the division whose remainder is from zero up to the divisor magnitude |
| SignedDivision.CorrectRemainder | src/lib/numeric/mutable_big_integer.e:2294-2329 | the remainder of a negative dividend becomes what is missing to the divisor; it has a leading zero limb exactly when the subtraction leaves one, and more limbs than the capacity on record exactly when the difference does not fit there |
| SignedDivision.DivideTo | src/lib/numeric/mutable_big_integer.e:708-906 | signed division into two result objects is Euclidean for every pair of signs; the quotient is a negative zero if and only if a positive dividend is smaller than a negative divisor, the remainder keeps a leading zero limb if and only if the dividend is negative and the last subtraction leaves one, and it outgrows its capacity if and only if a negative dividend is smaller than the divisor by more than the copy of the dividend has room for |
| SignedDivision.RemainderKeepsLeadingZero | src/lib/numeric/mutable_big_integer.e:3214-3218 | a dividend and a divisor of three limbs for which it does |
| SignedDivision.NegativeZeroHappens | src/lib/numeric/mutable_big_integer.e:3219 | one divided by minus two, for which the quotient is a negative zero |
| SignedDivision.RemainderOutgrows | src/lib/numeric/mutable_big_integer.e:3217 | a negative dividend of one limb and a divisor of eight, for which the remainder has more limbs than its capacity of four |
| SignedDivision.OneObjectForBoth | src/lib/numeric/mutable_big_integer.e:715-722 | the precondition accepts one object for quotient and remainder, but the promise can then be kept only where both are the same number |
| BigAddition.AddMagnitude | src/lib/numeric/mutable_big_integer.e:2519-2654 | the exact sum without leading zero in all branches, for a number added to itself too; the check that the carry has a place fails if and only if the second number is longer, the sum needs one limb more, and the storage taken has exactly the length of that number, by doubling or as a copy of its capacity |
| BigAddition.RoomIsTight | src/lib/numeric/mutable_big_integer.e:2586-2637 | in every branch the new storage has a place for a carry, except exactly in those two cases |
| BigAddition.CarryDoesNotFit | src/lib/numeric/mutable_big_integer.e:2583-2637 | a number of eight limbs and one of one limb in a storage of four, for which it fails |
| BigAddition.AddOne | src/lib/numeric/mutable_big_integer.e:318-366 | adding one is exact also when the carry runs through all limbs and the storage is replaced |
| BigSubtraction.BarelyAheadIsShort | src/lib/numeric/mutable_big_integer.e:2854-2888 | a condition on single limbs says exactly when the difference is two limbs shorter than its operands |
| BigSubtraction.SubtractSameLength | src/lib/numeric/mutable_big_integer.e:2666-2712 | the exact difference and sign; the class invariant that the top limb is not zero holds if and only if the larger number is not barely ahead |
| BigSubtraction.SubtractRaw | src/lib/numeric/mutable_big_integer.e:2730-2781 | for a number that starts at the front the difference is right; for one that starts later it is right if and only if the limbs above the last borrow happen to be in place |
| BigSubtraction.SubtractRawReverse | src/lib/numeric/mutable_big_integer.e:2783-2852 | the exact difference; the promise that it starts at the front holds if and only if the number did or the borrow reached the top |
| BigSubtraction.SubtractMagnitude | src/lib/numeric/mutable_big_integer.e:2657-2728 | for all lengths, starts and capacities: the sign change, exactly when the difference is right, exactly when it then has a leading zero limb, and exactly when its length exceeds the capacity on record |
| BigSubtraction.LeadingZeroHappens | src/lib/numeric/mutable_big_integer.e:3218 | two numbers of three limbs whose difference breaks the class invariant |
| BigSubtraction.StaleLimbsHappen | src/lib/numeric/mutable_big_integer.e:2768-2781 | a number that starts at slot 1 of four and a subtrahend for which the limbs are not in place |
| BigSubtraction.StartNotReset | src/lib/numeric/mutable_big_integer.e:2826-2838 | a number that starts at slot 1 of four and a longer one for which the start is not reset |
| BigSubtraction.CapacityNotUpdated | src/lib/numeric/mutable_big_integer.e:2718-2727 | a number in a storage of four and one of eight limbs whose difference exceeds the old capacity |
| Environment.ArrSize | resources/smarteiffel-germ/compile_to_c1.c:584-590 | the number of strings in front of the null pointer |
| Environment.ComparesNames | resources/smarteiffel-germ/compile_to_c1.c:597-601 | comparing up to and including the equals sign is comparing variable names letter by letter, a capital letter and the small one 32 above it counting as one |
| Environment.FindVariable | resources/smarteiffel-germ/compile_to_c1.c:592-604 | the first entry that names the same variable, or minus one when there is none or nothing to search |
| Environment.Merge | resources/smarteiffel-germ/compile_to_c1.c:659-679 | every write is within the room for both vectors and the vector is the merged one |
| Environment.MergeOne | resources/smarteiffel-germ/compile_to_c1.c:664-679 | one added entry overrides the inherited entry it names in place, or is appended, as in the merged vector |
| Environment.LastOverrideStays | resources/smarteiffel-germ/compile_to_c1.c:670-675 | each inherited slot ends with the last added entry whose first match it is, or with its own value |
| Environment.UnmatchedAt | resources/smarteiffel-germ/compile_to_c1.c:675-677 | every added entry without a match is appended, in the order of adding |
| Environment.UnmatchedOnto | resources/smarteiffel-germ/compile_to_c1.c:675-677 | nothing else is appended |
| Environment.InheritedName | resources/smarteiffel-germ/compile_to_c1.c:664-679 | under an inherited name the child finds the last added entry for it, or the inherited one |
| Environment.AddedName | resources/smarteiffel-germ/compile_to_c1.c:664-679 | under a name that is not inherited the child finds the first added entry for it; later ones are shadowed |

## Left out

- HashTables.HashTable.Put: keys and items are generic; the set's node, which has no item, is modelled as a dictionary node with a unit item.
- HashTables.HashTable.CreateWithCapacity: the pool is a parameter here; the registry supplies it in `Registry.Registry.CreateDictionary`. The dictionary version looks its pool up again on every call; it then gets the pool it has, because there is one per type.
- HashedSets.WithCapacity: the Eiffel garbage collector may reclaim the nodes that are dropped; that they are unreachable is not stated.
- PoolRuns.Run: runs that call `with_capacity` on a live set are excluded, because it drops the chains of the set.
- DictionaryFamilies.Run: `make` on a dictionary in use, which drops its chains, is not part of the run.
- Programs.Program.Run: all dictionaries are created with the default capacity, and none of the registry's own type; `Registry.Registry.Run` has those, without operations in between.
- Registry.Registry.Run: the node types of different generating types are erased to one, as in the generated C, apart from the registry's own.
- Registry.Registry.Run: the set classes keep a registry of their own with the same code; one is modelled.
- Weak references: a free list is never cleared by the collector in the model.
- `remove`, `copy`, iterators and the set algebra of the hashed containers: they use the same chains and cursor.
- `resize`, `unwrap`, `clear_count_and_capacity` and searching of RING_ARRAY: not in the generated code that is modelled.
- Sorting.Sort: `heap_sort`, `von_neuman_sort` and the searching features of the sorters are separate algorithms.
- SignedDivision.DivideTo: quotient and remainder are two objects; what the code makes of one object for both is not modelled.
- BigAddition.AddMagnitude: a store behind the end of the storage is modelled as the outcome that the check reports; what memory it hits is not.
- BigSubtraction.SubtractRawReverse: the storage of the shorter number is assumed to have room for the longer one, as its caller ensures.
- Shifts.ShiftLeft: bit operations are written as multiplication, division and remainder, and loops that the source repeats per branch appear once; `primitive_shift_left`, which nothing calls, is not modelled.
- The choice by sign in `add` and `subtract`, multiplication in place, greatest common divisors, conversion and printing of big integers: they combine the loops that are modelled.
- Environment.Merge: the new vector gets no null pointer at its end in the code, so none is stated; added names are not compared with each other.
- Process creation, pipes, signals and file access around the environment merge: input and output.
- Methods that split one source loop or branch into named steps (such as `HashTables.HashTable.StepCursor` or `LongDivision.SettleTop`) have no separate counterpart in the source.
