# Reference-count table of longeron's id management

This project models, in Dafny, the reference-count table of longeron's
`lgrn` namespace (`src/longeron/id_management/refcount.hpp`) and proves its
contracts.

- `RefCount` is a growable table of counters, one slot per integer index. It
  refuses three things: shrinking while a discarded slot is non-zero, being
  overwritten by move assignment while any slot is non-zero, and being
  destroyed while any slot is non-zero. Each refusal is an assertion in the
  C++ code; here each one is a `requires` clause.
- `IdRefCount` indexes that table by an identifier's integer form.
  `RefAdd` grows the table when it has to, increments the slot and hands out
  an owning handle (`IdStorage`). `RefRelease` decrements the slot of a
  non-empty handle and empties the handle. An empty handle is a no-op.

Files:

- `slots.dfy` (module `Slots`): the table as a value, a `seq<nat>`. It holds
  the specification functions `Resized`, `Acquired` and `Released`, the
  total of outstanding references `Sum`, and lemmas about them.
- `refcount.dfy` (module `Lgrn`): the classes. `RefCount` keeps its slots in
  a `seq<nat>` field that its methods reassign, as `std::vector` is mutated in
  place. `IdRefCount` derives from `RefCount` in C++; here it holds its table
  as a constant field `table`, and its methods modify that table.
  `IdStorage` is the handle class, with a mutable `id` field.
  `AcquireReleaseWalkthrough` is a client method. It takes two handles on
  identifier 5, releases one of them twice, releases the other, and then
  destroys the table. It shows that the contracts are enough to follow such
  a session.
- `conservation.dfy` (module `Conservation`): runs of `RefAdd`/`RefRelease`
  steps over any identifiers. A run stops at the first violated precondition.
  The module proves conservation: each slot equals its start count plus its
  acquires minus its releases. It also characterises exactly which runs
  violate nothing.

Modelling choices:

- An identifier is `Id(value)`, where `value: nat` is its integer form, or
  `NullId`. The integer form is only taken of non-null identifiers.
- `size()` and `operator[]` are read directly as `|counts|` and `counts[i]`.
- `only_zeros_remaining(start)` is the pure predicate `Slots.AllZeroFrom`.
  It is also the scanning method `RefCount.OnlyZerosRemaining`, which returns
  early. The method requires `start <= size()`, because the C++ loop
  starts at `std::next(begin, start)`, which is undefined past the end. All
  three callers (refcount.hpp lines 33, 41 and 61) respect this: the first
  two pass 0, and the third runs only when `newSize < size()`.
- Double release is described as a contract violation, but refcount.hpp:94
  has no assertion: on a zero slot `(*this)[idInt]--` wraps the unsigned
  counter to its maximum. The model does not follow the code there:
  `RefRelease` requires a positive count, which excludes that case.
- Move construction leaves the source table empty; the standard guarantees
  this for `std::vector`. For move assignment the standard only promises a
  valid but unspecified source; the model states that it is left empty, as
  mainstream library implementations do with the default allocator. Move
  assignment also requires that the source is not the target itself.
- The destructor is `RefCount.Destroy`, which empties the table.

## Model

| member | source | states |
|---|---|---|
| `Slots.AllZeroFrom` | src/longeron/id_management/refcount.hpp:44-54 | holds exactly when every index from `start` on, past the end included, reads zero; every guard of the table is written with it |
| `Slots.Resized` | src/longeron/id_management/refcount.hpp:59-64 | the resized table has exactly `n` slots; slots below `min(old size, n)` keep their counts, and added slots read zero |
| `Slots.Acquired` | src/longeron/id_management/refcount.hpp:77-87 | after acquiring index `i` the table has size `i + 1` if `i` was past the end, otherwise the same size (it never shrinks); slot `i` rises by exactly one and every other slot is unchanged |
| `Slots.Released` | src/longeron/id_management/refcount.hpp:91-96 | releasing index `i` keeps the size; slot `i` falls by exactly one and every other slot is unchanged |
| `Slots.SumZeroIff` | src/longeron/id_management/refcount.hpp:38-42 | a table records no outstanding reference exactly when every slot is zero, which is the teardown guard |
| `Slots.SumResized` | src/longeron/id_management/refcount.hpp:59-64 | resizing keeps the total of outstanding references if and only if the table grows or every discarded slot is zero, so the resize guard is both necessary and sufficient |
| `Slots.SumAcquired` | src/longeron/id_management/refcount.hpp:80-84 | acquiring adds exactly one outstanding reference to the table's total |
| `Slots.SumReleased` | src/longeron/id_management/refcount.hpp:93-94 | releasing removes exactly one outstanding reference from the table's total |
| `Slots.ReleaseUndoesAcquire` | src/longeron/id_management/refcount.hpp:77-97 | releasing right after acquiring the same index is always allowed and restores every slot's count; the table keeps the length the acquire gave it |
| `Slots.ShrinkBelowHeldSlotRefused` | src/longeron/id_management/refcount.hpp:59-64 | once index `i` holds a reference, the resize guard refuses every size at or below `i` |
| `Lgrn.IdStorage.HasValue` | src/longeron/id_management/refcount.hpp:91 | a handle has a value exactly when it holds a real identifier, one with an integer form to release |
| `Lgrn.IdStorage.Holding` | src/longeron/id_management/refcount.hpp:86 | the handle built by `ref_add` holds the given identifier |
| `Lgrn.RefCount.constructor` | src/longeron/id_management/refcount.hpp:20 | a default-constructed table is empty |
| `Lgrn.RefCount.WithCapacity` | src/longeron/id_management/refcount.hpp:22-24 | constructing with a capacity yields exactly `capacity` slots, all zero |
| `Lgrn.RefCount.MoveFrom` | src/longeron/id_management/refcount.hpp:21 | move construction takes over the source's slots and leaves the source empty |
| `Lgrn.RefCount.MoveAssign` | src/longeron/id_management/refcount.hpp:30-36 | move assignment is allowed only into a table whose slots are all zero, so what it overwrites held no outstanding reference; the target then holds the source's slots and the source is empty |
| `Lgrn.RefCount.Destroy` | src/longeron/id_management/refcount.hpp:38-42 | destruction is allowed only when every slot is zero, so no outstanding reference is discarded |
| `Lgrn.RefCount.OnlyZerosRemaining` | src/longeron/id_management/refcount.hpp:44-54 | the scan returns true if and only if every slot at index `start` or beyond is zero; it cannot modify the table |
| `Lgrn.RefCount.Resize` | src/longeron/id_management/refcount.hpp:59-64 | allowed only when growing or when every slot from `newSize` on is zero; the new table is `Resized(old, newSize)` and the total of outstanding references is unchanged |
| `Lgrn.IdRefCount.constructor` | src/longeron/id_management/refcount.hpp:68-73 | a new IdRefCount owns a fresh, empty table |
| `Lgrn.IdRefCount.RefAdd` | src/longeron/id_management/refcount.hpp:77-87 | for a non-null id the table becomes `Acquired(old, id)`: it grows to `id + 1` only when needed, and slot `id` rises by one with every other slot unchanged. The total rises by one, and a fresh handle holding `id` is returned |
| `Lgrn.IdRefCount.RefRelease` | src/longeron/id_management/refcount.hpp:89-97 | an empty handle leaves the table and the handle unchanged. A non-empty handle's slot falls by one, with size and other slots unchanged, and the total falls by one. The handle always ends null, so a second release is a no-op |
| `Conservation.Conserved` | src/longeron/id_management/refcount.hpp:77-97 | after any run of adds and releases that violates no precondition, every slot equals its start count plus its adds minus the releases of handles holding it, and the table has not shrunk |
| `Conservation.RunReachedIffMatched` | src/longeron/id_management/refcount.hpp:77-97 | a run violates no precondition if and only if every add names a real identifier and every release of a handle holding `j` is covered by `j`'s start count plus the earlier adds of `j` |

## Left out

- `Lgrn.IdRefCount.RefAdd`: slots are unbounded naturals. The source's
  `COUNT_T` is `unsigned short` by default and would wrap past 65535 with
  no check. The model neither wraps nor adds a bound.
- `Lgrn.IdRefCount.RefRelease`: requires the released slot to be positive.
  The source has no check there, and on a zero slot the decrement wraps the
  unsigned `COUNT_T` to its maximum; the model does not capture that wrap.
- The integer form of an identifier is an unbounded `nat`. The width of the
  identifier's integer type is not modelled, nor the wrap of `idInt + 1` at
  its maximum.
- `storage.hpp` is not part of this model. `IdStorage` is reduced to its
  identifier and `has_value`, which is true exactly when the identifier is
  not null. Its default constructor (`IdStorage()`, an empty placeholder)
  comes from there too and is kept only as the empty state. Moving a handle
  from one variable to another is not modelled, nor the null sentinel's
  actual integer value.
- Only `ref_add` mints a non-null handle in the source, because the handle
  type is owned by `IdRefCount` (refcount.hpp:75, with `m_id` reached at
  93 and 95). The model does not enforce this: `IdStorage.Holding` and the
  `id` field are public, so a client could build a non-null handle and
  release a count it never acquired.
- The deleted copy constructor and copy assignment are type-system features
  and are not modelled.
- The assertion macros' messages and abort behaviour are not modelled: each
  assertion is a precondition.
- `std::vector` allocation and capacity are not modelled.
- `IdRefCount` is generic over the identifier and count types in C++. The
  model fixes one identifier datatype and one count type.
