# PriorityCollection in Dafny

This project models `PriorityCollection<T>`, a generic container. It stores
values under dense integer ids. A caller can raise the priority of an id one
step at a time. The collection returns or removes the entry with the greatest
`(priority, id)` key. It keeps three coupled pieces of state:

- `objects`: the value slots, indexed by id. A popped slot is never removed or reused.
- `prio`: the priority ledger, indexed by id. `Popped` (-1) marks an id whose value has been popped.
- `index`: the ordered map keyed by `(priority, id)`.

Files:

- `ordered_index.dfy` (module `OrderedIndex`): the key order of the ordered map.
  It also holds the map operations the collection uses: insertion of a key, erasure
  of a key, and the greatest key. The map's balanced tree is modelled by its keys
  in ascending order, as a strictly increasing `seq<Key>`.
- `priority_collection.dfy` (module `PriorityCollections`): the class
  `PriorityCollection<T>`, its invariant `Valid()` and its operations. `Valid()`
  holds when the index's key set is exactly `LiveKeys(prio)`, that is
  `{(prio[i], i) | 0 <= i < |prio|, prio[i] >= 0}`, and every ledger entry is
  `Popped` or non-negative.
- `scenario.dfy` (module `Scenario`): the `TestNoCopy` scenario. Each of its
  expected results is an `assert` that the verifier proves.

`IsValid`, `Get` and `GetMax` are read-only queries, so they are functions that
read the object. `Add`, the range `Add` (`AddRange`), `Promote` and `PopMax`
change the object in place, so they are methods. Each method states its whole
new state and keeps `Valid()`.

A popped id never becomes valid again. `Add`, `AddRange`, `Promote` and
`PopMax` each state this in their postconditions: an id whose ledger entry was
`Popped` before the call is still `Popped` after it.

## Model

| member | source | states |
|---|---|---|
| `OrderedIndex.Insert` | PriorityCollection2.cpp:23 | `map[k] = v` on the key order: the result stays strictly ascending; its keys are the old keys plus `k`; a key already present leaves the keys unchanged |
| `OrderedIndex.Erase` | PriorityCollection2.cpp:45 | `map.erase(k)`: the result stays strictly ascending and its keys are the old keys minus `k` |
| `OrderedIndex.Greatest` | PriorityCollection2.cpp:50 | `(--map.end())->first`: a key of the map that is lexicographically greater than every other key |
| `PriorityCollections.LiveKeysAppend` | PriorityCollection2.cpp:20-23 | appending a slot with priority 0 adds exactly the key `(0, n)` to the keys of the live ids |
| `PriorityCollections.LiveKeysUpdate` | PriorityCollection2.cpp:44-46 | rewriting one ledger entry replaces only that id's key: `(p, id)` becomes `(v, id)`, or is dropped when `v` is `Popped` |
| `PriorityCollections.TopUnique` | PriorityCollection2.cpp:50 | at most one live id has the greatest key, so the maximum is well defined |
| `PriorityCollections.PriorityCollection.constructor` | PriorityCollection2.cpp:64-66 | a new collection has no slots, no ledger entries and an empty index, and satisfies `Valid()` |
| `PriorityCollections.PriorityCollection.Get` | PriorityCollection2.cpp:39-41 | the slot of a live id; `Add`'s `Get(id) == x` and the `objects` equations of `Promote` and `PopMax` say what it returns |
| `PriorityCollections.PriorityCollection.IsValid` | PriorityCollection2.cpp:35-37 | an id is valid exactly when it has a key in the ordered index: it was handed out and has not been popped |
| `PriorityCollections.PriorityCollection.TopId` | PriorityCollection2.cpp:50 | the id of the index's last key is live, and its `(priority, id)` key beats every other live id's key: it has the highest priority, and among equal priorities it has the larger id |
| `PriorityCollections.PriorityCollection.GetMax` | PriorityCollection2.cpp:49-52 | returns the value and priority of the live id whose `(priority, id)` key is greatest, and changes nothing |
| `PriorityCollections.PriorityCollection.TopIsSelected` | PriorityCollection2.cpp:49-52 | when some id is live with the greatest key, the index is non-empty and that id is the one `GetMax` and `PopMax` select |
| `PriorityCollections.PriorityCollection.EmptyIndex` | PriorityCollection2.cpp:50 | the index is empty exactly when every id has been popped |
| `PriorityCollections.PriorityCollection.Add` | PriorityCollection2.cpp:19-25 | returns the number of objects stored before the call; appends the value and priority 0; the index gains exactly `(0, id)`; afterwards the id is valid and `Get(id)` is the value; earlier slots, priorities and keys are unchanged; a popped id stays popped |
| `PriorityCollections.PriorityCollection.AddRange` | PriorityCollection2.cpp:27-33 | one single `Add` per element, in order: the ids are consecutive from the old count, the values are appended in input order; each new id has priority 0; the index gains exactly the keys `(0, id)` of the new ids; a popped id stays popped |
| `PriorityCollections.PriorityCollection.Promote` | PriorityCollection2.cpp:43-47 | a live id's priority grows by exactly 1, and its key `(p, id)` becomes `(p + 1, id)`; all other priorities and keys, and all values, are unchanged; a popped id stays popped |
| `PriorityCollections.PriorityCollection.PopMax` | PriorityCollection2.cpp:54-61 | returns what `GetMax` returned before the call; marks that id `Popped`, so it is no longer valid; removes only its key from the index; keeps the invariant; a popped id stays popped |
| `Scenario.TestNoCopy` | PriorityCollection2.cpp:79-99 | the scenario's first part: ids 0, 1, 2; `Get(white)` is "white"; red is valid; after the promotions `GetMax` gives "red" |
| `Scenario.PopAll` | PriorityCollection2.cpp:100-114 | with white at 0 and yellow and red tied at 2, the pops give ("red", 2), then ("yellow", 2), then ("white", 0); red is invalid after its pop |

## Left out

- The map's stored values are `vector<T>::iterator`s into `objects`. `push_back` can invalidate them, and nothing reads them. `GetMax` and `PopMax` use only the key: its id to find the slot, and its priority as the result. They never use the stored iterator, so the model keeps only the keys.
- The map is modelled by its keys in ascending order. Its balanced tree and the logarithmic costs are not modelled.
- `PopMax`: the value is moved out of its slot, which leaves a moved-from value behind. The model leaves the slot unchanged. The model never reads a popped slot, because `Get` requires a valid id.
- `T` is a type parameter. The move-only element type `StringNonCopyable`, copy and move semantics, and the test harness (`TestRunner`, `ASSERT_EQUAL`, `main`) are not modelled. The scenario uses `string`.
- `AddRange` takes a sequence and returns the ids as a sequence. The C++ takes a pair of input iterators and writes into an output iterator.
- `IsValid`, `Get` and `Promote` require a non-negative id, and `Get` and `Promote` require a live id. The code does not check these cases, and its behaviour there is undefined or unintended. For example, `Promote` on a popped id would erase nothing and re-insert the key `(0, id)`, so the popped id would become valid again.
- `GetMax` and `PopMax` require a non-empty index. On an empty map the C++ decrements `end()`, which is undefined behaviour.
- Priorities and ids are unbounded integers. The C++ `int` overflow after very many `Promote` calls, or very many `Add` calls, is not modelled.
- Scenario: the C++ test is one function. The model splits it into `TestNoCopy` and `PopAll`, which `TestNoCopy` calls, so that each part stays cheap to verify.
