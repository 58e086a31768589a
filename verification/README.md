# circular_buffer ring-buffer engine, modelled in Dafny

This project models the storage engine of `boost::circular_buffer`. It is a
fixed-capacity ring of physical slots. The live elements form a run of `size`
slots that starts at physical index `first` and wraps around the end of
storage. `push_back` on a full buffer overwrites the oldest element.
`erase_begin(n)`, `erase_end(n)` and `clear()` destroy the removed elements and
move the bookkeeping (`first`, `size`). They never rewrite a stored value, so a
pointer saved before the erase still reads the old value.

The buffer is a value: `Buffer(slots, first, size)`.
- `slots` is a sequence of `capacity` slots. Each is `Uninit` (raw storage),
  `Constructed(v)` (a live element) or `Destroyed(v)` (the bytes an element
  left behind when it was destroyed).
- `Live(b)` is the number of `Constructed` slots. It is what an
  instance-counting element type observes.
- The invariant `Valid` says that `0 < capacity`, `first < capacity` and
  `0 <= size <= capacity`. It also says that a slot is `Constructed` exactly
  when it lies in the run of `size` slots starting at `first`. `LiveIsSize`
  proves from this that the live count equals `size`.
- `Contents(b)` is the logical view. Its element `i` is in slot
  `(first + i) mod capacity`.
- Raw pointers are physical indices. Pointer arithmetic on them is plain
  integer arithmetic, so it does not wrap.

`push_back` is proved to follow `BoundedSeq`, a reference bounded FIFO on plain
sequences: appending to a full sequence drops its oldest element.
`erase_begin` and `erase_end` are proved to drop a prefix or a suffix of the
logical view, and `clear` to empty it. Each scenario of the erase/clear test is
proved as a lemma.

The allocator bound `max_size` is modelled for an unsigned size type of `bits`
bits. Its multiplication wraps modulo 2^bits.

Files: `bounded_seq.dfy` (reference FIFO), `circular_buffer.dfy` (engine),
`constant_erase_test.dfy` (test scenarios), `allocators.dfy` (`max_size`).

## Model

| member | source | states |
|---|---|---|
| CircularBuffer.WithCapacity | test/constant_erase_test.cpp:16 | `circular_buffer(5)` gives a valid buffer with capacity 5 and no elements |
| CircularBuffer.Fill | test/constant_erase_test.cpp:48-51 | `circular_buffer(n, item)` gives a full, valid buffer. It has `n` live objects and every logical element equals `item` |
| CircularBuffer.PushBack | test/constant_erase_test.cpp:16-22 | `push_back` keeps the invariant: size stays within capacity, and a slot holds a live element exactly when it lies in the logical run. Capacity does not change |
| CircularBuffer.PushBackContents | test/constant_erase_test.cpp:16-31 | `push_back` follows the bounded-FIFO reference. On a full buffer the contents become the old contents without the oldest element, plus the new one, and size stays at capacity. Otherwise the item is appended and size grows by one |
| CircularBuffer.PushAll | test/constant_erase_test.cpp:39-46 | A run of `push_back` calls leaves the newest `capacity` elements of (old contents ++ pushed items), in order |
| CircularBuffer.EraseBegin | test/constant_erase_test.cpp:26-28 | `erase_begin(n)` with `n <= size` keeps the invariant and the capacity |
| CircularBuffer.EraseBeginContents | test/constant_erase_test.cpp:26-31 | `erase_begin(n)` reduces size by exactly `n` and leaves the old logical suffix from `n` onwards, in order |
| CircularBuffer.EraseEnd | test/constant_erase_test.cpp:85-87 | `erase_end(n)` with `n <= size` keeps the invariant and the capacity |
| CircularBuffer.EraseEndContents | test/constant_erase_test.cpp:85-90 | `erase_end(n)` reduces size by exactly `n` and leaves the old logical prefix of length `size - n`, in order |
| CircularBuffer.Clear | test/constant_erase_test.cpp:144-146 | `clear()` on any valid buffer, including a full wrapped one, gives an empty valid buffer with no live objects and the same capacity |
| CircularBuffer.RemovalKeepsStorage | test/constant_erase_test.cpp:33-37 | `erase_begin(n)`, `erase_end(n)` and `clear` destroy exactly the removed elements and keep every stored value. A pointer to a former element's slot reads that value, marked destroyed if it was removed and alive otherwise |
| CircularBuffer.RemovalKeepsOtherSlots | test/constant_erase_test.cpp:92-96 | A slot outside the logical run (raw, or already destroyed) is left exactly as it was by all three removals |
| CircularBuffer.IndexWraps | test/constant_erase_test.cpp:142-151 | `operator[](i)` (`Index`) reads physical slot `(first + i) mod capacity`, and that slot holds a live element |
| CircularBuffer.LiveIsSize | test/constant_erase_test.cpp:48-56 | In every valid buffer the number of live element objects equals `size()`, so every operation that keeps `Valid` keeps the two in step |
| CircularBuffer.EmptyReusable | test/constant_erase_test.cpp:39-46 | An empty buffer, however it was emptied, takes up to `capacity` pushes and then holds exactly them, in order |
| ConstantEraseTest.Cb1Layout | test/constant_erase_test.cpp:16-24 | Pushing 1..6 into capacity 5 gives a full buffer with contents [2,3,4,5,6]. The front is physical slot 1, and 6 has overwritten 1 in slot 0 |
| ConstantEraseTest.EraseBeginInts | test/constant_erase_test.cpp:14-46 | `erase_begin(2)` gives [4,5,6]. `erase_begin(3)` then empties the buffer while `*p`, `*(p+1)`, `*(p+2)` still read 2, 3, 4 (now destroyed). Pushing 10, 11, 12 gives size 3 and [10,11,12] |
| ConstantEraseTest.EraseEndInts | test/constant_erase_test.cpp:73-105 | `erase_end(2)` gives [2,3,4]. `erase_end(3)` then empties the buffer while `*p`, `*(p-1)`, `*(p-2)` still read 5, 4, 3 (now destroyed). Pushing 10, 11, 12 gives size 3 and [10,11,12] |
| ConstantEraseTest.ClearInts | test/constant_erase_test.cpp:132-151 | `clear()` on the wrapped full buffer empties it. `*p`..`*(p+3)` still read 2..5, and `*(p-1)` reads 6 (the wrapped newest value) |
| ConstantEraseTest.InstanceCounts | test/constant_erase_test.cpp:48-56 | The fill constructor makes 5 live objects (counted as constructed slots). `erase_begin(2)` and `erase_end(2)` (lines 107-115) leave 3, and `clear` (lines 153-161) leaves 0 |
| ConstantEraseTest.MyIntegerScenarios | test/constant_erase_test.cpp:58-70 | For `MyInteger` elements, `erase_begin(2)` gives [4,5,6], `erase_end(2)` (lines 117-129) gives [2,3,4], and `clear` (lines 163-172) empties the buffer |
| Allocators.MaxSize | include/boost/circular_buffer/allocators.hpp:26-28 | `max_size` times the element size fits in the size type. One more element does not |
| Allocators.MaxSizeBytesDoNotWrap | include/boost/circular_buffer/allocators.hpp:26-28 | The size-type (mod 2^bits) byte count of `max_size` elements equals the true byte count, so there is no overflow |
| Allocators.MaxSizeIsLargest | include/boost/circular_buffer/allocators.hpp:27 | One element more than `max_size` needs at least 2^bits bytes. Every count whose byte size fits is at most `max_size` |
| Allocators.MaxSizeIgnoresAllocator | include/boost/circular_buffer/allocators.hpp:26-27 | `max_size` is the same for any two allocator instances |
| Allocators.MaxSizeByElementSize | include/boost/circular_buffer/allocators.hpp:27 | For 1-byte elements `max_size` is the size type's maximum. It never increases as the element size grows |

## Left out

- Capacity 0: excluded by `0 < capacity` in `Valid`. test/constant_erase_test.cpp never builds a capacity-0 buffer.
- Erase counts larger than `size`: excluded by `n <= size`. The source only checks this with `BOOST_CB_ASSERT` (include/boost/circular_buffer.hpp:22-27), which compiles to nothing unless debugging is enabled.
- Where `clear()` leaves `first`: this is decided in base.hpp, which this model does not cover. The model moves it past the destroyed run, as `erase_begin(size())` does. The test observes only emptiness and the untouched stored values.
- Reading a destroyed element: the model keeps its last value in a `Destroyed` slot. For `int` this is the memory the test reads. For a class type, reading it in C++ would touch a destroyed object. The test reads stale slots only for `int`.
- Insert, rotate, `set_capacity`, `resize`, `linearize`, `push_front`, `pop_*`, `at`, `front`/`back`, iterators, assignment, copy, move and swap: they live in base.hpp and details.hpp, which this model does not cover.
- The space-optimised adaptor (space_optimized.hpp) and debug support (debug.hpp): not part of this model.
- Exception injection through `MyInteger`'s trigger, exception-safety guarantees, allocation and object lifetimes beyond the live count: no exceptions are modelled. The trigger is 0 in the test.
- Use of `max_size` to reject oversized capacity requests: the code that performs this check is in the engine headers, which are not part of this model.
- include/boost/circular_buffer/ext.hpp: compile-time type traits, empty-base storage and pointer conversion, with no runtime behaviour to state.
- example/circular_buffer_bound_example.cpp: a mutex and condition-variable bounded queue driven by two threads. Concurrency is not modelled.
