# Lock-free queues and an arena allocator, modelled in Dafny

This project models the sequential behaviour of four C++ components:

- **the ring-buffer copy helpers** `CopyIn` and `CopyOut`. They copy a span of bytes into or out of a ring of N bytes at a logical offset, wrapping round the end of the ring. Each is at most two `memcpy` segments.
- **`SPSC<N>`**, a single-producer single-consumer queue of variable-length byte messages. Each message is framed in the ring as an 8-byte `size_t` length header followed by its payload. The counters `read_idx` and `write_idx` grow without bound and are reduced modulo N.
- **`SPSCFixedSize<T, N>`**, the same queue for elements of one type T. It stores one element per slot and has single and bulk push and pop.
- **`ArenaAllocator`**, a bump allocator. `allocate` pads the offset up to the requested alignment and bumps it by the size. The deleters installed by `make_unique_arena` and `make_shared_arena` zero the object's bytes and take `sizeof(T)` back off the offset.

## How the model is built

Each source file becomes one module:

| module | source |
|---|---|
| `RingBufferUtils` | `queues/ring_buffer_utils.hpp` |
| `SpscQueue` | `queues/spsc.cpp` |
| `FixedSizeQueue` | `queues/spsc_fixed_size.cpp` |
| `Arena` | `arena-allocator/arena_alloc.cpp` |

Two more modules hold shared vocabulary:

- `Basics` has bytes, the 2^64 range of `size_t`, `Option` for `std::optional`, and facts about `%`.
- `SizeHeader` has the 8-byte length header.

The queues and the allocator are classes:

- Their counters and offsets are mutable fields.
- Their storage is a `const` array that the methods write in place.
- The copy helpers and the queue methods are loops and `memcpy` segments over those arrays. A `memcpy` is a `forall` statement, and each element-by-element loop of the source is a `while` loop.

Every method is proved against specification functions on sequences:

- `Overwrite(buf, offset, src)` is the ring after copying `src` in.
- `Extract(buf, offset, len)` is what copying out yields.

Each queue carries a ghost list of what it holds, oldest first:

- `messages` for `SPSC`. The invariant `Framed` says the bytes between the counters are exactly the frames of those messages, each header decoding to its payload's length.
- `contents` for `SPSCFixedSize`. The invariant says the slots from `read_idx` on hold those elements in order.

The push and pop methods state their effect on that list: append on success, drop the head on a pop, and nothing changed on failure. They also state the exact condition under which they fail.

Scenario methods replay the repository's tests and its `main` with concrete values, as assertions over the contracts:
- `SpscQueue.WrapAroundScenario`: a frame header that wraps round slot 31 of `SPSC<32>`.
- `SpscQueue.CapacityScenario`: frames that can never fit, or do not fit yet.
- `FixedSizeQueue.WrapAroundScenario` and `FixedSizeQueue.CapacityScenario`: the wrap-around and capacity tests of `spsc_fixed_size.cpp`. The capacity test fills the queue with one bulk push.
- `FixedSizeQueue.WrapSlotScenario`: a scenario of this model, not a test of the repository. On a ring of 2 slots, the third push lands back in slot 0.
- `Arena.UsageScenario`: the allocator's `main`, followed by the deleters.
- `Arena.OutOfOrderReleaseScenario`: the deleter's offset rollback assumes last-in first-out release. Releasing an older object first hands the next allocation bytes that a live object still occupies.

`Arena.ReleaseRestoresIff` proves that releasing the latest object restores the previous offset exactly when that allocation needed no padding. Otherwise the padding is lost until the arena is destroyed.

## Model

| member | source | states |
|---|---|---|
| RingBufferUtils.Split | queues/ring_buffer_utils.hpp:15-16 | the two `memcpy` segments of a wrapped span: the first starts at `offset % N` and stays inside the ring; the second starts at slot 0, holds the rest and ends before the first begins |
| RingBufferUtils.SplitDistance | queues/ring_buffer_utils.hpp:15-20 | every slot in the first segment lies at distance `j - start` from the offset, every slot in the second at `first + j`, and every other slot at distance `len` or more |
| RingBufferUtils.SplitSlot | queues/ring_buffer_utils.hpp:26-31 | position i of the span is read from slot `start + i` in the first segment and from slot `i - first` in the second |
| RingBufferUtils.CopyIn | queues/ring_buffer_utils.hpp:13-21 | after the copy, the ring is `Overwrite(old ring, offset, src)`: the slot `(offset + i) % N` holds `src[i]`, and every other slot is unchanged |
| RingBufferUtils.CopyOut | queues/ring_buffer_utils.hpp:24-32 | the first `len` bytes of `dst` become `Extract(ring, offset, len)`, the bytes of slots `(offset + i) % N` in order; the rest of `dst` is unchanged |
| RingBufferUtils.OverwriteAt | queues/ring_buffer_utils.hpp:13-21 | after a copy in, position i of the span holds `src[i]` |
| RingBufferUtils.OverwriteElsewhere | queues/ring_buffer_utils.hpp:13-21 | a copy in leaves every slot that no position of the span maps to as it was |
| RingBufferUtils.ExtractOverwrite | queues/ring_buffer_utils.hpp:13-32 | round trip: copying out at the same offset what was just copied in returns exactly the source bytes, however the span wraps |
| RingBufferUtils.ResidueOnly | queues/ring_buffer_utils.hpp:15 | only `offset % N` matters: two offsets with the same residue copy in and copy out identically |
| RingBufferUtils.ExtractUnaffected | queues/spsc.cpp:56-61 | a copy into the free part of the ring leaves unchanged every span that ends before it and that it does not reach round the ring |
| RingBufferUtils.OverwriteExtend | queues/spsc_fixed_size.cpp:51-54 | copying a span in one more element at a time: the next element goes to slot `(offset + len) % N`, where len is the number already copied, and no other slot changes |
| RingBufferUtils.ExtractAppend | queues/spsc_fixed_size.cpp:42-57 | writing a span right after the queued elements extends what can be read from `read_idx` by exactly that span |
| RingBufferUtils.ZeroLength | queues/ring_buffer_utils.hpp:16-31 | a copy of length 0 changes no slot and copies out nothing: the first segment is empty and the second `memcpy` is skipped |
| RingBufferUtils.ExtractDrop | queues/spsc_fixed_size.cpp:73-89 | dropping the first k elements read from an offset is the same as reading from k positions later |
| SizeHeader.EncodeLength | queues/spsc.cpp:60 | the header written for a payload length is exactly `HEADER_SIZE` (8) bytes |
| SizeHeader.DecodeLength | queues/spsc.cpp:74-75 | the value read back from any 8-byte header is a `size_t` (below 2^64) |
| SizeHeader.DecodeEncodeLength | queues/spsc.cpp:60-75 | reading a header back yields the length that was written |
| SizeHeader.EncodeDecodeLength | queues/spsc.cpp:74-75 | every 8-byte header is the encoding of the length it decodes to, so headers and `size_t` values are in one-to-one correspondence |
| SpscQueue.TotalSizeAppend | queues/spsc.cpp:50-63 | queuing a message adds exactly its frame size, `HEADER_SIZE + payload_size`, to the bytes in use |
| SpscQueue.FramedUnaffected | queues/spsc.cpp:56-61 | writing into the free part of the ring keeps every queued frame intact |
| SpscQueue.FramedConcat | queues/spsc.cpp:11-16 | two lists of frames laid out back to back form the frames of the concatenated list |
| SpscQueue.FramedPushed | queues/spsc.cpp:59-61 | a frame pushed at a logical offset can be read back from it: the header decodes to the payload's length and the payload follows |
| SpscQueue.FramedPush | queues/spsc.cpp:48-65 | pushing a frame right after the queued ones, when it fits, keeps every queued frame and appends the new one (FIFO order), however the header or payload wraps |
| SpscQueue.PushOffsets | queues/spsc.cpp:59-61 | the copies made at `write % N` and `write % N + 8` are the copies at logical offsets `write` and `write + 8` |
| SpscQueue.FramedFront | queues/spsc.cpp:68-83 | in a non-empty queue, reading from `read % N` yields the oldest message's header and then its payload, and the remaining messages are framed from the next frame on |
| SpscQueue.Spsc.constructor | queues/spsc.cpp:22-24 | both counters are 0, the ring of N bytes is zero-filled, and the queue is empty |
| SpscQueue.Spsc.CopyIn | queues/spsc.cpp:27-35 | the member copy in has the same effect as the free helper on this ring |
| SpscQueue.Spsc.CopyOut | queues/spsc.cpp:37-45 | the member copy out has the same effect as the free helper from this ring, and leaves the ring unchanged |
| SpscQueue.Spsc.Push | queues/spsc.cpp:48-65 | succeeds exactly when the frame (8 bytes plus the payload) is at most N bytes and fits beside those in use; on success the ring is the old ring with the header and then the payload written at `write_idx`, `write_idx` advances by the frame size and the message joins the queue; on failure nothing changes; `read_idx` never changes; the invariant is kept |
| SpscQueue.Spsc.ReadHeader | queues/spsc.cpp:73-75 | the header copied out at an offset decodes to the `size_t` stored in the 8 bytes from that offset |
| SpscQueue.Spsc.ReadPayload | queues/spsc.cpp:80-83 | the payload copied out is the `size` bytes from the offset, or empty when `size` is 0 |
| SpscQueue.Spsc.Pop | queues/spsc.cpp:68-87 | returns none exactly when `read_idx == write_idx`, and then changes nothing; otherwise returns the oldest message byte for byte, drops it from the queue and advances `read_idx` past its frame; under the invariant the incomplete-write branch is never taken; `write_idx` never changes |
| FixedSizeQueue.SpscFixedSize.constructor | queues/spsc_fixed_size.cpp:22-24 | both counters are 0, every slot holds `T{}`, and the queue is empty |
| FixedSizeQueue.SpscFixedSize.PushOne | queues/spsc_fixed_size.cpp:28-40 | succeeds exactly when fewer than N elements are queued; then slot `write_idx % N` receives x and nothing else changes, `write_idx` advances by 1 and x joins the queue; on failure nothing changes |
| FixedSizeQueue.SpscFixedSize.PushMany | queues/spsc_fixed_size.cpp:42-58 | all or nothing: succeeds exactly when the elements fit beside those queued; then the ring is the old ring with the elements written from `write_idx` on, and they join the queue in order; on failure nothing changes |
| FixedSizeQueue.SpscFixedSize.PopOne | queues/spsc_fixed_size.cpp:61-71 | on an empty queue returns `T{}` and changes nothing; otherwise returns the oldest element, drops it and advances `read_idx` by 1 |
| FixedSizeQueue.SpscFixedSize.PopMany | queues/spsc_fixed_size.cpp:73-89 | returns nothing and changes nothing on an empty queue or when fewer than `num` elements are queued; otherwise returns the `num` oldest elements in order and drops them |
| Arena.Padding | arena-allocator/arena_alloc.cpp:16 | the padding is less than the alignment and brings the offset to a multiple of it |
| Arena.PaddingAligns | arena-allocator/arena_alloc.cpp:16 | `offset + (alignment - offset % alignment) % alignment` is a multiple of the alignment |
| Arena.PaddingZeroIff | arena-allocator/arena_alloc.cpp:16 | the padding is zero exactly when the offset is already aligned |
| Arena.PaddingLeast | arena-allocator/arena_alloc.cpp:16 | the padding is the least: no shorter skip reaches an aligned offset |
| Arena.SubOffset | arena-allocator/arena_alloc.cpp:33 | `current_offset -= sizeof(T)` on a `size_t`: the result is a `size_t` that gives back the old offset when the size is added modulo 2^64, and it is the plain difference when no wrap occurs |
| Arena.ReleaseRestoresIff | arena-allocator/arena_alloc.cpp:15-33 | releasing the most recent allocation restores the offset it started from exactly when that allocation needed no padding; otherwise the offset stays above it |
| Arena.ArenaAllocator.constructor | arena-allocator/arena_alloc.cpp:11 | an arena of `arena_size` zero bytes with offset 0 |
| Arena.ArenaAllocator.Allocate | arena-allocator/arena_alloc.cpp:15-21 | the block starts at the old offset plus the padding, is aligned, starts less than one alignment past the old offset, and the offset moves to its end |
| Arena.ArenaAllocator.Make | arena-allocator/arena_alloc.cpp:25-40 | the object's bytes are placed at the allocated, aligned start and no other byte of the arena changes |
| Arena.ArenaAllocator.Release | arena-allocator/arena_alloc.cpp:28-34 | the object's bytes are zeroed, no other byte changes, and the offset drops by the object's size with `size_t` wrap-around |

## Left out

- Concurrency is not modelled: the atomics, memory orders and `alignas` of both queues. Each operation runs as one sequential step, and the counters are plain fields.
- The other queue files of the repository are not part of this model: `spscv2.cpp`, `spmc_multicast.cpp`, `fastqueue.cpp` and the remaining components. Its `main` functions and the printing in them are left out as well.
- SizeHeader.EncodeLength: fixes little-endian order for the header, where the source copies a `size_t` in the machine's own byte order. The queue relies only on the header being 8 bytes and decoding what was encoded.
- RingBufferUtils.CopyIn: takes the source bytes as a sequence of length `len` rather than a pointer and a length.
- RingBufferUtils.CopyIn: requires `N > 0`, because the source divides by N. It also requires `len <= N`, the bound every caller meets. `Push` copies only frames that fit in N bytes (queues/spsc.cpp:51 and :57), and `Pop` copies only payloads inside the published bytes (queues/spsc.cpp:78). The source itself accepts larger spans. Up to `2N - offset % N` bytes, its second segment overwrites slots of the first, and the last write wins. Beyond that, it writes past the ring. The model does not describe either case.
- RingBufferUtils.CopyOut: requires `N > 0` and `len <= N` for the same reasons. Above N, the source's second segment reads slots again from slot 0, and it reads past the ring beyond `2N - offset % N` bytes. It also requires a destination distinct from the ring, because `memcpy` between overlapping regions is undefined.
- SpscQueue.Spsc.Pop: does not model a header whose `8 + payload_size` wraps round `size_t`. The queue invariant rules this out, because every header was written by `Push`.
- FixedSizeQueue.SpscFixedSize.PopMany: computes the guard `read_idx + num_elements > write_idx` on unbounded integers, so a `num` near 2^64 is refused, with `[]` returned and nothing changed. In the source that sum wraps round `size_t`, the guard passes, and constructing a vector of `num_elements` elements throws `std::length_error`. The model does not capture that throw. An overflow-safe form of the guard is `num_elements > write - read`.
- Counters are unbounded: `read_idx` and `write_idx` are never taken to overflow 64 bits.
- FixedSizeQueue.SpscFixedSize.constructor: `T{}` is a constructor parameter `zero`, because Dafny has no value-initialisation for a type parameter.
- Arena.ArenaAllocator.Allocate: requires the new offset not to wrap round `size_t`; the source would wrap silently.
- Arena.ArenaAllocator.Allocate: requires `alignment > 0`, since the source takes `% alignment` and a zero alignment divides by zero.
- Arena.ArenaAllocator.Make: requires the block to lie inside the arena, since constructing the object writes its bytes.
- Arena.ArenaAllocator.Make: the object is given as the bytes of its representation. Placement new, destructors, `unique_ptr`/`shared_ptr` ownership and the reference count are not modelled.
- Arena.ArenaAllocator.Release: stands for the deleter of `make_unique_arena` and `make_shared_arena`. It runs when the owning pointer lets go, which is left to the caller.
- Arena.ArenaAllocator.Release: requires the object's bytes to lie inside the arena, because the source's `memset` is unchecked and would write past its end.
- The arena destructor's `data.clear()` is not modelled.
- `alignof(std::max_align_t)` is platform-dependent. `Arena.MAX_ALIGN` fixes it at 16.
