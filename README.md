# RefLang heap (Heap16Bit) in Dafny

RefLang is a small Scheme-like language. Its programs manage memory by hand with
`ref`, `deref`, `set!` and `free`. The interpreter backs these forms with one heap
object, `Heap16Bit`. It holds an array of 65,536 value slots and an ordered set of
the free indices. Every outcome, failures included, is returned as a value:

- `ref` allocates the least free index, or returns "Out of memory".
- `deref` and `setref` read or overwrite an allocated slot. They return
  "Null pointer" for an empty slot and "Segmentation fault" for an index outside
  the array.
- `free` returns an index to the pool and empties its slot.

The project has two modules:

- `HeapModel` (`heap_model.dfy`) describes the heap as a value. A `Store` holds the
  cells and the free set. There is one function per operation, and the lemmas
  state what the interpreter relies on.
- `Heap` (`heap16bit.dfy`) holds the class `Heap16Bit`. It has an `array` of cells
  and a `set<int>` of free indices, both updated in place. Every method is proved
  to change the state and reply exactly as the matching `HeapModel` function says,
  and to keep the object invariant `Valid()`.

Modelling decisions:

- A Java `null` slot is the cell `Empty`. The stored values have an abstract type
  `V`, because the heap never looks inside them.
- The three DynamicError kinds are the tagged values `OutOfMemory`,
  `NullPointer(loc)` and `SegFault(loc)`.
- `free` adds the index at Heap.java:54 before the store at Heap.java:55 that can
  throw. So an out-of-range `free` reports a segmentation fault and still leaves
  the index in the free set (`FreeOutOfRange`). The model keeps that order.
- Because of that order, a later `ref` can choose the bad index as the least free
  one, and the store at Heap.java:29 throws an exception that `ref` does not
  catch. That outcome is the reply `IndexFault(index)`, and the heap is left
  unchanged (`FreeOutOfRangeThenRef`, `RefFaultsOnlyUnbounded`).
- The invariant "a free in-range index is exactly an empty slot" (`Inv`) holds
  after every operation.
- The property "the free set lies inside the array" (`Bounded`) holds only for
  histories whose `free` calls are all in range. From such a history `ref` never
  faults (`ReachableRefNeverFaults`).

## Model

| member | source | states |
|---|---|---|
| HeapModel.LeastExists | src/main/java/reflang/Heap.java:24 | Every non-empty set of indices has a least element, so the ordered set's `first()` is defined whenever the set is non-empty |
| HeapModel.Least | src/main/java/reflang/Heap.java:28 | For a non-empty free set, the result is a member of the set and no greater than any member (`first()` of the ordered set) |
| HeapModel.Init | src/main/java/reflang/Heap.java:21-24 | A new heap has exactly HEAP_SIZE = 65,536 slots |
| HeapModel.InitIsEmpty | src/main/java/reflang/Heap.java:62-64 | In a fresh heap every slot is empty, and the free set is exactly the indices 0..65535; both `Inv` and `Bounded` hold |
| HeapModel.Ref | src/main/java/reflang/Heap.java:26-31 | Value-level `ref`. Its contract only keeps the array length; RefAllocatesLeast, RefWhenFull and RefFaultsOnlyUnbounded state what it does |
| HeapModel.RefAllocatesLeast | src/main/java/reflang/Heap.java:26-31 | On a valid heap whose least free index lies in the array (always so when the free set is bounded, and also when only indices beyond the array were wrongly freed), `ref(v)` succeeds. It returns the least free index, which was empty, and now holds `v`. Exactly that index leaves the free set, and every other slot is unchanged |
| HeapModel.RefWhenFull | src/main/java/reflang/Heap.java:27 | With an empty free set, `ref` returns the OutOfMemory error and changes nothing |
| HeapModel.RefFaultsOnlyUnbounded | src/main/java/reflang/Heap.java:28-29 | `ref` ends in an uncaught index fault exactly when the least free index is outside the array. That needs an unbounded free set, and the heap is then unchanged |
| HeapModel.RefPreservesInv | src/main/java/reflang/Heap.java:26-31 | `ref` keeps `Inv` (free in-range index iff empty slot) and keeps `Bounded` |
| HeapModel.RefThenDeref | src/main/java/reflang/Heap.java:26-37 | Round trip: after a successful `ref(v)` returns `l`, `deref(l)` returns `v` |
| HeapModel.Deref | src/main/java/reflang/Heap.java:34-41 | Value-level `deref`; DerefCases states its behaviour |
| HeapModel.DerefCases | src/main/java/reflang/Heap.java:34-41 | On a valid heap, `deref(l)` gives SegFault iff `l` is out of range, and NullPointer iff `l` is in range and free. It succeeds iff `l` is in range and allocated, and then returns the stored value. It never faults |
| HeapModel.Setref | src/main/java/reflang/Heap.java:43-50 | Value-level `setref`; its contract keeps the array length; SetrefCases states its behaviour |
| HeapModel.SetrefCases | src/main/java/reflang/Heap.java:43-50 | Out of range, `setref` returns SegFault and changes nothing; on a free slot it returns NullPointer and changes nothing. On an allocated slot it returns the new value, which `deref` then reads, and every other slot is unchanged. The free set never changes |
| HeapModel.SetrefPreservesInv | src/main/java/reflang/Heap.java:43-50 | `setref` keeps `Inv` and `Bounded` |
| HeapModel.Free | src/main/java/reflang/Heap.java:52-60 | Value-level `free`, adding the index before the range check; its contract keeps the array length |
| HeapModel.FreeInRange | src/main/java/reflang/Heap.java:52-56 | An in-range `free(l)` returns `l`, adds `l` to the free set and empties its slot. Every other slot is unchanged |
| HeapModel.FreeOutOfRange | src/main/java/reflang/Heap.java:52-59 | For every heap and every out-of-range `l`, `free(l)` returns SegFault, adds `l` to the free set and changes no cell |
| HeapModel.FreeIdempotent | src/main/java/reflang/Heap.java:52-60 | Freeing the same location twice gives the same heap and the same reply as freeing it once |
| HeapModel.FreeThenDeref | src/main/java/reflang/Heap.java:52-56 | Use after free is detected: `deref` of a just-freed in-range location returns NullPointer |
| HeapModel.FreePreservesInv | src/main/java/reflang/Heap.java:52-60 | `free` always keeps `Inv`. It keeps a bounded free set bounded iff the location is in range |
| HeapModel.FreeOutOfRangeThenRef | src/main/java/reflang/Heap.java:54-55 | On a fresh heap, `free(-1)` reports SegFault yet inserts -1. The next `ref` then picks -1 and ends in an index fault |
| HeapModel.RunPreservesInv | src/main/java/reflang/Heap.java:26-60 | Every sequence of heap operations keeps `Inv`. One whose `free` calls are all in range also keeps `Bounded` |
| HeapModel.ReachableRefNeverFaults | src/main/java/reflang/Heap.java:26-31 | After any history from a fresh heap whose `free` calls are in range, `ref` never ends in an index fault |
| HeapModel.RefAllFrom | src/main/java/reflang/Heap.java:26-31 | Suppose exactly the indices from `k` on are free. Then `n` successive refs get `k`, `k+1`, ... in order, store each value there, and leave the indices from `k+n` on free |
| HeapModel.ExhaustFreshHeap | src/main/java/reflang/Heap.java:21-31 | From a fresh heap, 65,536 refs return locations 0..65535 in order. The 65,537th returns OutOfMemory and changes nothing |
| Heap.Heap16Bit.constructor | src/main/java/reflang/Heap.java:62-64 | The constructor loop leaves the object valid, with every slot empty and every index 0..65535 free, i.e. the state `Init()` |
| Heap.Heap16Bit.Ref | src/main/java/reflang/Heap.java:26-31 | In-place `ref` keeps `Valid()`. Its new state and reply are those of `HeapModel.Ref` on the old state |
| Heap.Heap16Bit.Deref | src/main/java/reflang/Heap.java:34-41 | `deref` modifies nothing and replies as `HeapModel.Deref`. It returns NullPointer exactly when the location is in range and free |
| Heap.Heap16Bit.Setref | src/main/java/reflang/Heap.java:43-50 | In-place `setref` keeps `Valid()` and the free set. Its new state and reply are those of `HeapModel.Setref` |
| Heap.Heap16Bit.Free | src/main/java/reflang/Heap.java:52-60 | In-place `free` keeps `Valid()`. Its new state and reply are those of `HeapModel.Free`, including the insertion of an out-of-range index |
| Heap.UseAfterFree | src/main/java/reflang/Interpreter.java:15-19 | The sample programs: on a new heap, `ref v` returns location 0. `deref` reads `v`, `set!` makes it `w`, and after `free` the `deref` reports NullPointer at 0 |

## Left out

- Storing Java `null` through `ref(null)` or `setref(loc, null)` is not modelled. The value type has no null, so `ref` always fills the slot it takes.
- The error message text (`"Null pointer at " + loc` and so on) is not modelled. It depends on how a reference prints, and `RefVal` is not part of this model. Errors are tagged kinds carrying the location.
- The ordered set's internals are not modelled. The free set is a mathematical `set<int>`, and `first()` is its least element.
- An exception that `ref` does not catch would reach the interpreter loop's generic handler. Here it is the reply `IndexFault`, and the handler is not modelled.
- The `Heap` interface has only `Heap16Bit` as an implementation, and the model covers only that class.
- The evaluator, environment and AST are not part of this model. The read-eval-print loop is console I/O and is not modelled.
- Locations are Java 32-bit `int`s, but the model uses unbounded `int`. They are only compared with the array bounds, so no wrap-around can arise.
