# Entity storage engine of a tile-grid 2D simulation, in Dafny

This project models the entity-component storage of the engine:

- **`SparseSet<T, CAPACITY>`** (`SparseSet.dfy`, module `SparseSets`). This is a fixed-capacity map from small integer ids to densely packed values.
  - `sparse` is a fixed-size `array<nat>`. Each slot holds a dense position or `Empty`. `Empty` is `k_Empty`, the largest 64-bit `size_t`.
  - `dense` and `data` are `seq` fields. They grow at the back, and erasing swaps the last pair into the freed slot.
  - The representation invariant is the pure predicate `Rep` on `sparse` and `dense`: `sparse[id] == k` exactly when `dense[k] == id`, `|dense| <= CAPACITY`, `dense` has no duplicates, and every stored id is below the capacity. `Valid()` applies `Rep` to the current fields and adds `|dense| == |data|`.
  - The abstract value is the ghost map `Contents()` from present ids to values.
  - `SparseSet::Iterator` is a class holding its owner and a dense position.
- **`EntityManager`** (`EntityManager.dfy`, module `Entities`). This is the registry.
  - It has a LIFO freelist (`seq<nat>`) seeded with `1999, 1998, …, 0`, and an existence set (`set<nat>`).
  - It owns three stores for Transform, Velocity and Collider. The component types are type parameters `Tr`, `Ve`, `Co`, because their float fields play no part in the storage logic.
  - The template dispatch `add<C>`, `has<C>`, `get<C>`, `getSet<C>` becomes one member per component type.
- **Client runs** (`Scenarios.dfy`, module `Scenarios`) are proved from the contracts alone.

Every method that changes state states its new lists, its new map and its new freelist in terms of the old ones, and how far its changes reach; the sparse array is then fixed by the invariant together with the new `dense`. The invariant-preservation facts are proved as separate lemmas on plain sequences: `RepInsert`, `RepPop` and `AbstractPop`.

The model follows the code as written, including three behaviours:

- `remove` never erases the id from the existence set, so `contains` keeps answering true (src/EntityManager.hpp:113-122). Removing twice pushes the id onto the freelist twice, and two later `make` calls then return the same id (`Scenarios.RemoveTwiceReusesTwice`).
- `make` calls `back()` on the freelist unchecked (src/EntityManager.hpp:23), so a non-empty freelist is its precondition.
- `pop` on an absent id is undefined behaviour, and only `popIfContains` is a no-op for one, so `Pop` requires presence (src/SparseSet.hpp:45-78).

## Model

| member | source | states |
|---|---|---|
| `SparseSets.SparseSet.constructor` | src/SparseSet.hpp:13-17 | every sparse slot is `Empty`, both lists are empty, the invariant holds and the map is empty |
| `SparseSets.SparseSet.Insert` | src/SparseSet.hpp:19-27 | for an id below the capacity and absent: the invariant is kept, the map gains exactly `index ↦ item`, both lists grow by one at the back |
| `SparseSets.SparseSet.Emplace` | src/SparseSet.hpp:29-38 | same preconditions and effect as `insert`, with the forwarded arguments already constructed into a value |
| `SparseSets.RepInsert` | src/SparseSet.hpp:24-26 | appending an absent id and pointing its sparse slot at the new last position keeps the invariant and adds exactly that pair to the map |
| `SparseSets.DistinctBelowBound` | src/SparseSet.hpp:15-16 | ids without duplicates and below `n` number at most `n`, so the dense lists never outgrow the reserved capacity |
| `SparseSets.SparseSet.Contains` | src/SparseSet.hpp:40-43 | true exactly when the id is in the map, and exactly when it occurs in `dense` |
| `SparseSets.SparseSet.DenseIsContents` | src/SparseSet.hpp:40-43 | under the invariant each `dense[k]` is present with value `data[k]`, and the present ids are exactly those in `dense` |
| `SparseSets.SparseSet.Pop` | src/SparseSet.hpp:45-70 | for a present id: the invariant is kept, the map loses exactly that id, both lists are the swap-removal of the old ones at the id's position, and no sparse slot changes except the id's and the former last id's |
| `SparseSets.SwapRemoveAt` | src/SparseSet.hpp:59-68 | swap-removal shortens the list by one, keeps every other position, and moves the former last element into slot `k` |
| `SparseSets.SwapRemoveMultiset` | src/SparseSet.hpp:59-68 | swap-removal removes exactly one occurrence of the element at `k` and keeps every other element (as a multiset) |
| `SparseSets.SwapRemoveDistinct` | src/SparseSet.hpp:62-68 | swap-removal keeps a duplicate-free list duplicate-free, and the removed id no longer occurs |
| `SparseSets.RepPop` | src/SparseSet.hpp:62-69 | redirecting the last id's sparse pointer to the freed position, marking the id `Empty` and swap-removing both lists keeps the invariant |
| `SparseSets.AbstractPop` | src/SparseSet.hpp:59-69 | the same update removes exactly the popped id from the map; every other id keeps its value |
| `SparseSets.SparseSet.PopIfContains` | src/SparseSet.hpp:72-78 | returns whether the id was present; when absent nothing changes; when present the effect is that of `pop`: the map loses the id, both lists are swap-removed at its position, and no sparse slot but the id's and the moved id's changes |
| `SparseSets.SparseSet.At` | src/SparseSet.hpp:80-84 | for a present id, the value the map holds for it |
| `SparseSets.SparseSet.SetAt` | src/SparseSet.hpp:86-89 | assigning through the reference `operator[]` returns replaces that id's value in the map and moves no id |
| `SparseSets.SparseSet.IsEmpty` | src/SparseSet.hpp:91-94 | true exactly when the map is empty, and exactly when `data` is empty |
| `SparseSets.SparseSet.Clear` | src/SparseSet.hpp:96-101 | afterwards the invariant holds, `empty()` is true, no id below the capacity is contained and both lists are empty |
| `SparseSets.Iterator.constructor` | src/SparseSet.hpp:107 | the iterator holds its owner and position |
| `SparseSets.Iterator.Deref` | src/SparseSet.hpp:119-122 | the pair at position `k` is `(dense[k], data[k])`; its id is present and its value is the one `at` gives for that id |
| `SparseSets.Iterator.Equals` | src/SparseSet.hpp:130-138 | same position and same owner; its negation is `operator!=`, the loop test of `Entries` |
| `SparseSets.Iterator.Increment` | src/SparseSet.hpp:124-128 | advances the position by one |
| `SparseSets.SparseSet.Begin` | src/SparseSet.hpp:147-150 | an iterator of this set at position 0 |
| `SparseSets.SparseSet.End` | src/SparseSet.hpp:152-155 | an iterator of this set at position `|data|` |
| `SparseSets.Entries` | src/SparseSet.hpp:119-155 | a loop from `begin()` while `!= end()` visits exactly `|data|` positions, yields `(dense[k], data[k])` at each, and visits every present id with its value |
| `Entities.EntityManager.constructor` | src/EntityManager.hpp:12-19 | the freelist is `1999, 1998, …, 0`, the existence set and all three stores are empty, and the invariant holds |
| `Entities.SeededFreelist` | src/EntityManager.hpp:12-19 | the seeded freelist holds every id below 2000 exactly once, strictly descending, with 0 at the back |
| `Entities.MakeRunAscends` | src/EntityManager.hpp:21-27 | successive `make` calls on the seeded freelist return `0, 1, 2, …` |
| `Entities.MakeRunAt` | src/EntityManager.hpp:21-27 | the `j`-th of `k` successive `make` calls takes the id `j` places from the back of the freelist |
| `Entities.MakeRunSnoc` | src/EntityManager.hpp:21-27 | one more `make` call appends the id `k` places from the back of the freelist to the ids handed out so far |
| `Entities.EntityManager.Make` | src/EntityManager.hpp:21-27 | on a non-empty freelist: returns the back id, which is below 2000, drops it from the freelist and adds it to the existence set; no store changes |
| `Entities.EntityManager.AddTransform` | src/EntityManager.hpp:32-35 | for an id below 2000 without a Transform: the Transform store gains exactly that value, `has`/`get` then report it, both of its lists grow by the id and the value at the back, and the other two stores are unchanged |
| `Entities.EntityManager.AddVelocity` | src/EntityManager.hpp:36-39 | the same for the Velocity store |
| `Entities.EntityManager.AddCollider` | src/EntityManager.hpp:40-43 | the same for the Collider store |
| `Entities.EntityManager.HasTransform` | src/EntityManager.hpp:53-56 | true exactly when the Transform store holds the id |
| `Entities.EntityManager.HasVelocity` | src/EntityManager.hpp:57-60 | true exactly when the Velocity store holds the id |
| `Entities.EntityManager.HasCollider` | src/EntityManager.hpp:61-64 | true exactly when the Collider store holds the id |
| `Entities.EntityManager.GetTransform` | src/EntityManager.hpp:74-77 | for an id with a Transform, the value the Transform store holds for it |
| `Entities.EntityManager.GetVelocity` | src/EntityManager.hpp:78-81 | for an id with a Velocity, the value the Velocity store holds for it |
| `Entities.EntityManager.GetCollider` | src/EntityManager.hpp:82-85 | for an id with a Collider, the value the Collider store holds for it |
| `Entities.EntityManager.TransformSet` | src/EntityManager.hpp:95-98 | the owned Transform store: valid, of capacity 2000, and the one `has<Transform>` consults |
| `Entities.EntityManager.VelocitySet` | src/EntityManager.hpp:99-102 | the owned Velocity store, likewise |
| `Entities.EntityManager.ColliderSet` | src/EntityManager.hpp:103-106 | the owned Collider store, likewise |
| `Entities.EntityManager.Remove` | src/EntityManager.hpp:113-122 | an id not in the existence set changes nothing; otherwise all three stores lose exactly that id, each store holding it has both lists swap-removed at its position and the others keep theirs, the id is pushed onto the freelist's back, and the existence set stays the same |
| `Entities.EntityManager.Contains` | src/EntityManager.hpp:124-129 | for an id below 2000, membership in the existence set |
| `Scenarios.EraseKeepsOthers` | src/SparseSet.hpp:45-70 | ids 3, 7 and 1 are stored and 7 is popped: 7 is gone, and 3 and 1 keep their values |
| `Scenarios.PopAbsentThenClear` | src/SparseSet.hpp:72-101 | `popIfContains` of an absent id returns false and removes nothing; `clear` then empties the store |
| `Scenarios.FreshIdsAscend` | src/EntityManager.hpp:12-27 | a fresh manager hands out 0, 1, 2 |
| `Scenarios.MakeMany` | src/EntityManager.hpp:21-27 | `k` successive calls of `Make` return `MakeRun` of the starting freelist and shorten it by `k` |
| `Scenarios.FreshIdsAscendAll` | src/EntityManager.hpp:12-27 | on a fresh manager, any `k <= 2000` calls of `Make` return `0, 1, …, k - 1` |
| `Scenarios.RemoveRecyclesId` | src/EntityManager.hpp:113-129 | after `remove`, the id has no Transform, another id keeps its own, `contains` is still true, and the next `make` returns the removed id |
| `Scenarios.RemoveTwiceReusesTwice` | src/EntityManager.hpp:113-122 | removing an id twice makes the next two `make` calls both return it |

`Iterator::index()` is the public field `index`.

## Left out

- `SparseSet::popIterator` (src/SparseSet.hpp:157-161) is not modelled. It passes a dense position to `pop`, and `pop` expects an id.
- `Iterator::data()` (src/SparseSet.hpp:114-117) is not modelled. It gives the same value as the second half of `Deref`.
- `std::vector::reserve` has no observable effect and is not modelled. It bounds nothing; the bound `|dense| <= capacity` in the invariant follows from `DistinctBelowBound`, since `dense` holds distinct ids below the capacity.
- The model returns values, not references. Writes through the reference from `operator[]` are modelled on the store as `SetAt`. The manager's `get<C>` has no modelled write path. A reference kept across a swap-removal, which would then point at a different id's value, is not modelled.
- In-place construction in `emplace`, from forwarded constructor arguments, is modelled by passing the constructed value.
- Ids are `size_t` and are modelled as unbounded `nat`. No operation here can overflow or wrap. Every `size() - 1` runs on a non-empty list: after a push in `insert` and `emplace`, and under the presence precondition in `pop`. The constructor's `k_MaxEntities - 1` is 1999. The constructor's `int32_t` loop counter stays within `[-1, 1999]`.
- `contains`, `has<C>` and `popIfContains` (through `contains`) index `m_Sparse` unchecked; `operator[]` and `get<C>` (src/SparseSet.hpp:86-89, src/EntityManager.hpp:74-85) index both arrays with no check at all; `pop` and `at` check only the bound with an `assert` that disappears in release builds. An out-of-range or absent id is then undefined behaviour, so these cases are the preconditions of `Contains`, `Has*`, `PopIfContains`, `SetAt`, `Get*`, `Pop` and `At`.
- The geometry primitives, overlap tests and translation vectors of src/Core.hpp are not part of this model. They are float arithmetic with square roots and trigonometry.
- The wall-clock timer `SecClock` (src/Core.hpp) is not part of this model. It reads the system clock.
- Colours and stream printers (src/Core.hpp) are not modelled. They are presentation only.
- Level loading, windowing and the raycast renderer (src/Game.cpp) are input, output and rendering, and are not modelled.
- Input-driven movement (src/Entities.cpp) and the velocity system (src/Systems.cpp) are not modelled. They use keyboard polling, float trigonometry and a world object that is not part of this model.
- Tiles (src/Tile.hpp) wrap renderer texture ids and are not modelled. The component structs (src/Components.hpp) are plain float data and appear only as the type parameters `Tr`, `Ve` and `Co`.
