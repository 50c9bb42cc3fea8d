# Data-oriented tables, unrolled summation and packed entity ids

This project is a Dafny model of the data-oriented-design experiments in the Playground
repository. It covers three C# sources:

- **`DoDTest.cs`** has two ways of storing records.
  - `StableTable<T0>` is a generational slot table. It has fixed `ushort` generations, a value
    column, and a FIFO `Queue<ushort>` of free indices. Handles `(Index, Generation)` stay valid
    until their slot is removed.
  - `UnstableTable<T0>` is a dense 1024-slot column with a `Count`. It removes by swapping.
  - The ref-struct enumerators of both, and the static `Table<T>.Iterate` row enumerator.
- **`AddTest.cs`** has the scalar summation benchmarks. One of them adds into one
  accumulator. `TestSimple_Pair` unrolls two adds. The others keep two, four or eight
  independent accumulators ("lanes") over the same `readonly int[1024]`.
- **`EntityComponentSystem.cs`** has the `EntityId` packing (a 24-bit id and an 8-bit
  generation in one `uint`) and the `EntityManager` counter behind `CreateEntity`.

Layout, one module per file:

- `Machine.dfy` holds the .NET integer types: `ushort`, `byte`, `uint` and `int` as newtypes.
  It also defines the unchecked arithmetic that C# `++` and `+=` perform (`Wrap32`, `Add32`,
  `Inc32`, `IncU32`). Exceptions become values of `Fault`, returned in `Result`/`Outcome`.
- `StableTable.dfy` (`StableTables`) and `UnstableTable.dfy` (`UnstableTables`) each start with
  a value model of the table state: `Slots` or `Dense`. Every operation is a function from state
  to result and from state to new state, and the lemmas about sequences of calls are stated over
  these functions. Each file ends with the in-place classes over arrays. Each of their methods
  promises exactly the result and the new state that its function gives.
- `Tables.dfy` (`Tables`) holds `Table<T>.Iterate` and its `Enumeratorable`.
- `AddTest.dfy` (`Summation`) holds the class `AddTest` with its loops. Each loop is proved
  against `Sum`, the exact sum, or `Lane`, the sum of one accumulator's elements, read through
  the 32-bit wrap.
- `Bits.dfy` (`Bits`) defines `&`, `>>` and `<<` on naturals bit by bit and proves their
  arithmetic meaning.
- `Entities.dfy` (`Entities`) holds `EntityId` and `EntityManager`.

Several behaviours of the code differ from what a reader might expect; the model follows the code:

- The slot table's bounds test is `Index > column0.Length`. The index equal to the
  capacity passes it. It then throws `IndexOutOfRangeException` on the `generations` read, in
  the indexer and also in `Remove`, which never gets to return `false` for it.
- The free list is a FIFO queue seeded with every index. On a table of capacity 4, after
  `Add, Add, Remove(h0)`, the next `Add` returns `{2,0}` rather than the freed slot 0. Slot 0 comes
  back as `{0,1}` only after slots 2 and 3 (`StableTables.Scenario`, `RemoveThenReuse`).
- The dense table stores at `++Count`. Its records sit in slots 1..Count, and slot 0 is never
  written by `Add` unless `Count` was -1. The increment happens before the bounds-checked
  store, so a failing `Add` still increments `Count`.
- `Remove` searches all 1024 slots with `Array.IndexOf`, dead slots and slot 0 included. It
  moves `column0[Count]` into the hole. On a fresh table `Remove(default)` finds slot 0 and
  drives `Count` to -1.
- The dense enumerator answers `index++ < Count`, so a `foreach` reads slots 0..Count: that is
  `Count + 1` reads, starting at the unused slot 0.
- `TestSimple_Pair_NonSerial` returns only the even-index accumulator. It is not the array's sum.

## Model

| member | source | states |
|---|---|---|
| Machine.Add32 | AddTest.cs:58 | an unchecked `int` add agrees with the exact sum modulo 2^32, and equals it whenever the exact sum is in the `int` range |
| Machine.Inc32 | DoDTest.cs:31 | `++` on an `int` is the successor, and wraps from `int.MaxValue` to `int.MinValue` |
| Machine.IncU32 | EntityComponentSystem.cs:21 | `++` on a `uint` is the successor modulo 2^32 |
| Bits.ShrIsDiv | EntityComponentSystem.cs:72 | shifting right by `n` bits is division by 2^n |
| Bits.AndLowMask | EntityComponentSystem.cs:71 | masking with `n` low one-bits gives the remainder modulo 2^n |
| Bits.AndShiftedMask | EntityComponentSystem.cs:67 | masking with `b << n` keeps the bits of `x >> n` that `b` selects, shifted back up |
| Entities.MaskLayout | EntityComponentSystem.cs:66-67 | `IdMask` is the low 24 bits and `GenMask` is the 8 bits above them |
| Entities.EntityId.Id | EntityComponentSystem.cs:71 | the id getter is `Data` modulo 2^24, so it is below 2^24 |
| Entities.EntityId.Generation | EntityComponentSystem.cs:72 | the generation is `Data / 2^24`, so the `byte` cast loses nothing and the result is below 256 |
| Entities.EntityId.WithId | EntityComponentSystem.cs:71 | the id setter stores `value` itself as the packed word, so the id is `value` modulo 2^24 and the generation is `value / 2^24`; neither depends on the old `Data` |
| Entities.Packing | EntityComponentSystem.cs:66-72 | `Data == Generation * 2^24 + Id` for every `Data` |
| Entities.PackingInjective | EntityComponentSystem.cs:66-72 | two ids with equal `Id` and equal `Generation` are equal |
| Entities.MasksSplitData | EntityComponentSystem.cs:66-72 | `Data & GenMask == Generation << 24`, and the two masked parts add up to `Data` |
| Entities.SetIdClearsGeneration | EntityComponentSystem.cs:71 | setting an id that fits in 24 bits leaves generation 0 and exactly that id, whatever the previous generation |
| Entities.CountedAscending | EntityComponentSystem.cs:20-21 | until the counter wraps, entities from one manager have strictly increasing `Data`, each one above its predecessor |
| Entities.IdsRepeat | EntityComponentSystem.cs:20-21 | the entity created 2^24 calls after another has the same `Id` and a generation one higher |
| Entities.EntityManager.constructor | EntityComponentSystem.cs:20 | a new manager has a zero counter and has issued nothing |
| Entities.EntityManager.CreateEntity | EntityComponentSystem.cs:21 | pre-increments the `uint` counter and returns an id whose `Data` is the new counter; the `k`-th entity ever issued has `Data == k` modulo 2^32 |
| Entities.EntityManager.FreeEntity | EntityComponentSystem.cs:22 | changes no state |
| StableTables.Ascending | DoDTest.cs:92-93 | the constructor's queue has length `capacity` and holds the index `k` at position `k` |
| StableTables.Bump | DoDTest.cs:131 | a generation after `++` always differs from before, and wraps to 0 after 65535 |
| StableTables.Check | DoDTest.cs:111-115 | the handle check passes exactly for a live handle; it throws `ArgumentOutOfRange` exactly when `Index > capacity`, and `IndexOutOfRange` exactly when `Index == capacity` |
| StableTables.GetResult | DoDTest.cs:98-103 | the getter returns the slot's value exactly for a live handle, and otherwise the check's exception |
| StableTables.SetState | DoDTest.cs:104-108 | the setter writes only the handle's slot, only for a live handle, and a read through that handle then returns the value |
| StableTables.AddResult | DoDTest.cs:117-123 | `Add` fails with `QueueEmpty` exactly when the queue is empty; otherwise it returns the queue's front index with that slot's generation, a live handle |
| StableTables.AddState | DoDTest.cs:117-123 | `Add` dequeues the front, writes only that slot, changes no generation, and a read through the returned handle gives the added value |
| StableTables.RemoveResult | DoDTest.cs:124-134 | `Remove` returns true exactly for a live handle, and it throws exactly for `Index == capacity` |
| StableTables.RemoveState | DoDTest.cs:124-134 | a successful `Remove` bumps the slot's generation and queues the index at the back; the column is never touched; afterwards the handle is not live |
| StableTables.RemoveTwice | DoDTest.cs:124-134 | a second `Remove` of the same handle returns false and changes nothing, and reads through it fail with `InvalidGeneration` |
| StableTables.RemoveOfFreeSlotQueuesTwice | DoDTest.cs:124-134 | a handle forged from a free slot's index and generation is accepted, and that index is then queued twice |
| StableTables.AddKeepsDistinct | DoDTest.cs:117-123 | with no index queued twice, the slot `Add` hands out is no longer queued and the queue stays duplicate-free |
| StableTables.RemoveKeepsDistinct | DoDTest.cs:124-134 | removing a handle whose slot is not queued keeps the queue duplicate-free |
| StableTables.AddAllFollowsQueue | DoDTest.cs:117-123 | successive `Add`s return the queued indices in queue order with their generations, then fail with `QueueEmpty`; they change no generation and consume the front of the queue |
| StableTables.FreshAddsAscending | DoDTest.cs:87-94 | on a fresh table the first `capacity` `Add`s return `{0,0}, {1,0}, ...` in order, and every later `Add` fails |
| StableTables.HandleStable | DoDTest.cs:68-134 | a live handle whose slot is not queued reads the same value, stays live and stays out of the queue through any operations that neither remove it nor write through it |
| StableTables.AddedHandleStable | DoDTest.cs:117-134 | with no index queued twice, the handle `Add` returns reads the added value through any later operations that neither remove it nor write through it |
| StableTables.RemoveThenReuse | DoDTest.cs:124-134 | after removing a handle, the next `Add`s first hand out every index that was already queued; then the freed slot comes back with the bumped generation, and the old handle still reads as stale |
| StableTables.GenerationCountsFrees | DoDTest.cs:131 | after any sequence of operations, a slot's generation is its start value plus the number of successful removals of that slot, modulo 2^16 |
| StableTables.StaleUntilWrap | DoDTest.cs:111-134 | a removed handle becomes live again exactly when its slot has been freed a multiple of 65536 times in total |
| StableTables.StableTable.constructor | DoDTest.cs:87-94 | a new table has `capacity` slots (256 by default), every generation 0, and the queue 0..capacity-1 |
| StableTables.StableTable.ThrowInvalidHandle | DoDTest.cs:111-115 | raises what `Check` gives for the current state |
| StableTables.StableTable.Get | DoDTest.cs:98-103 | returns `GetResult` of the current state |
| StableTables.StableTable.Set | DoDTest.cs:104-108 | raises the check's exception or changes the state as `SetState` says |
| StableTables.StableTable.Add | DoDTest.cs:117-123 | returns `AddResult` and changes the state as `AddState` says |
| StableTables.StableTable.Remove | DoDTest.cs:124-134 | returns `RemoveResult` and changes the state as `RemoveState` says |
| UnstableTables.IndexOf | DoDTest.cs:35 | `Array.IndexOf` gives -1 exactly when the value is absent, and otherwise the first index holding it |
| UnstableTables.Live | DoDTest.cs:26-31 | the records `Add` has stored are the `Count` slots 1..Count |
| UnstableTables.AddOutcome | DoDTest.cs:29-32 | `Add` succeeds exactly when `-1 <= Count < 1023`, and otherwise throws `IndexOutOfRange` |
| UnstableTables.AddState | DoDTest.cs:29-32 | `Add` increments `Count` even when the store then fails; it writes only slot `Count + 1`, never slot 0 unless `Count` was -1, and appends the value to the live records |
| UnstableTables.RemoveResult | DoDTest.cs:33-42 | `Remove` returns false exactly when the value is nowhere in the array, and true exactly when it is there and `Count` is a valid slot; otherwise it throws |
| UnstableTables.RemoveState | DoDTest.cs:33-42 | a successful `Remove` copies slot `Count` over the first slot holding the value, decrements `Count`, and leaves every other slot alone |
| UnstableTables.RemoveLiveRecord | DoDTest.cs:33-42 | removing a value held by a live record returns true, and the live records lose exactly one copy of it (as multisets) |
| UnstableTables.RemoveOfDeadValueDropsLast | DoDTest.cs:33-42 | when the first copy of the value is in slot 0 or past `Count`, `Remove` still returns true, but the last live record is what disappears |
| UnstableTables.SwapRemoveLive | DoDTest.cs:38-40 | removal by swapping moves the last live record into the hole and shortens the live records by one |
| UnstableTables.CountTracksCalls | DoDTest.cs:26-42 | after any sequence of operations, `Count` is its start plus every `Add` call, including failed ones, minus every `Remove` that returned true, as a wrapping `int` |
| UnstableTables.ForeachVisitsZeroThroughCount | DoDTest.cs:53-61 | a `foreach` over a fresh enumerator reads slots 0, 1, ..., Count, and nothing when `Count` is negative |
| UnstableTables.UnstableTable.constructor | DoDTest.cs:26-27 | a new table has `Count` 0 and 1024 default slots |
| UnstableTables.UnstableTable.Add | DoDTest.cs:29-32 | returns `AddOutcome` and changes the state as `AddState` says |
| UnstableTables.UnstableTable.Remove | DoDTest.cs:33-42 | returns `RemoveResult` and changes the state as `RemoveState` says |
| UnstableTables.UnstableTable.GetEnumerator | DoDTest.cs:64 | a new enumerator over this table at position -1 |
| UnstableTables.Enumerable.constructor | DoDTest.cs:50-54 | the enumerator starts at position -1 |
| UnstableTables.Enumerable.MoveNext | DoDTest.cs:58-61 | answers whether the old position was below `Count`, then increments it with wrap; a true answer consumes the next slot of the remaining reads and a false one means none remain |
| UnstableTables.Enumerable.Current | DoDTest.cs:56 | reads the slot at the cursor, or throws `IndexOutOfRange` outside 0..1023 |
| UnstableTables.Enumerable.SetCurrent | DoDTest.cs:56 | writes through the returned reference: only the slot at the cursor changes, or it throws outside 0..1023 |
| Tables.IterateYieldsRows | DoDTest.cs:184-206 | a `foreach` over `Iterate()` yields rows 0, 1, ..., Count-1, and nothing when `Count` is not positive |
| Tables.Table.constructor | DoDTest.cs:183 | the static row count starts at 0 |
| Tables.Table.Iterate | DoDTest.cs:184-191 | a new enumerator at index -1 with capacity `Count`, whose remaining rows are those `Rows(-1, Count)` yields |
| Tables.Enumeratorable.constructor | DoDTest.cs:186-190 | the struct initialiser sets `index` and `capacity` |
| Tables.Enumeratorable.GetEnumerator | DoDTest.cs:198 | a copy of the enumerator |
| Tables.Enumeratorable.Current | DoDTest.cs:200 | a row whose index is the cursor |
| Tables.Enumeratorable.MoveNext | DoDTest.cs:202-206 | increments first, then answers `index < capacity`; below `int.MaxValue` that answer is true exactly when rows remain, and the row yielded is the next remaining one |
| Summation.LanesPartitionSum | AddTest.cs:89-104 | the `m` lane sums of an `m`-way split add up to the whole sum |
| Summation.SamplesNeverOverflow | AddTest.cs:44-49 | on 1024 values in [0,100), no running total of any loop leaves the `int` range, so every wrapped total is exact |
| Summation.PairNonSerialMissesOddIndices | AddTest.cs:76-86 | on such data, `TestSimple_Pair_NonSerial` differs from the true sum as soon as an odd-indexed element is nonzero |
| Summation.LanesSum4 | AddTest.cs:103 | adding the four wrapped lane totals gives the wrapped sum |
| Summation.LanesSum8 | AddTest.cs:129 | adding the eight wrapped lane totals gives the wrapped sum |
| Summation.AddTest.constructor | AddTest.cs:42-50 | `data` is a new 1024-element array holding the draws |
| Summation.AddTest.TestSimple | AddTest.cs:53-61 | returns the sum of `data` as an unchecked `int` |
| Summation.AddTest.TestSimplePair | AddTest.cs:64-73 | returns the sum of `data` as an unchecked `int` |
| Summation.AddTest.TestSimplePairNonSerial | AddTest.cs:76-86 | returns only lane 0 of a 2-way split: the even-index elements |
| Summation.AddTest.TestSimpleNonSerial4 | AddTest.cs:89-104 | returns the sum of `data` as an unchecked `int` |
| Summation.AddTest.TestSimpleNonSerial8 | AddTest.cs:107-130 | returns the sum of `data` as an unchecked `int` |

## Left out

- The SIMD benchmarks of `AddTest.cs` (`TestSimple_SIMD` and the four `NonSerial_4_SIMD`
  variants) are left out. They reinterpret memory with `MemoryMarshal.Cast`, unsafe pointers
  and hardware intrinsics, which have no counterpart here.
- `System.Random` in the `AddTest` constructor is not modelled. The constructor takes the draws
  as a parameter, and its precondition says what `Next(100)` promises: 1024 values in [0,100).
- Summation.AddTest.TestSimplePair: it requires `data.Length` to be even, and the four-way
  and eight-way loops require a multiple of 4 or 8. The constructor always allocates 1024 slots,
  which meets all three. For other lengths the source would throw `IndexOutOfRangeException`,
  and that case is not modelled.
- Exceptions are information-free `Fault` values returned in `Result`/`Outcome`. No exception
  object, message or stack unwinding is modelled. A call that throws leaves the state as it
  was. The one exception is `UnstableTable.Add`, which has already incremented `Count`
  when its store throws.
- `default(T0)` is not modelled. It becomes the `zero` argument of the `UnstableTable`
  constructor, and the `StableTable` class asks `T0` for a default value (`T0(0)`).
- The `Queue<ushort>` becomes a sequence, front first. Its growth, capacity hint and
  allocation are not modelled.
- The `ref T0` that `UnstableTable.Enumerable.Current` returns is modelled as a read
  (`Current`) and a write (`SetCurrent`) of the slot. Aliasing through a held reference is not
  modelled.
- `Table<T>.Count` is a static field. It becomes a field of one `Table` object, and the row
  type `T` becomes the datatype `Row`.
- `TableAlivePlayers` is left out. It is a set of ref-returning accessors into static
  `string`, `Vector3` and `float` arrays.
- The rest of `EntityComponentSystem.cs` is left out: archetypes, `HasComponent`, `Query`,
  `Chunk`, the component structs and the system stubs. These are unimplemented stubs, unsafe
  buffers and floating point.
- `GenMask` is declared in the source but no member of the source uses it. It appears only in
  `MaskLayout` and `MasksSplitData`.
- `SphereCullTest.cs`, `AABBCullTest.cs` and `Program.cs` are not part of this model. They are
  floating-point culling with tasks and parallel loops, and a console benchmark entry point.
- Concurrency is not modelled: every table is used from one thread.
