/** `ArenaAllocator` (arena-allocator/arena_alloc.cpp): a bump allocator over
    a fixed block of bytes. `allocate` pads the offset up to the requested
    alignment and bumps it by the size; the deleters installed by
    `make_unique_arena` and `make_shared_arena` zero the object's bytes and
    take `sizeof(T)` back off the offset. Offsets are `size_t`. */
module Arena {
  import opened Basics

  /** `alignof(std::max_align_t)`, the default alignment (16 on x86-64 Linux
      and macOS and on AArch64, 8 with MSVC on x64; platform-dependent). */
  const MAX_ALIGN: nat := 16

  /** Bytes to skip so that offset + padding is a multiple of alignment. */
  function Padding(offset: nat, alignment: nat): (p: nat)
    requires 0 < alignment
    ensures p < alignment
    ensures (offset + p) % alignment == 0
  {
    PaddingAligns(offset, alignment);
    (alignment - offset % alignment) % alignment
  }

  /** The padding expression of `allocate` lands on a multiple of alignment. */
  lemma PaddingAligns(offset: nat, alignment: nat)
    requires 0 < alignment
    ensures (offset + (alignment - offset % alignment) % alignment) % alignment == 0
  {
    var r := offset % alignment;
    assert offset == offset / alignment * alignment + r;
    if r == 0 {
      ModUnique(alignment, alignment, 1, 0);
      ModUnique(offset, alignment, offset / alignment, 0);
    } else {
      ModUnique(alignment - r, alignment, 0, alignment - r);
      ModUnique(offset + (alignment - r), alignment, offset / alignment + 1, 0);
    }
  }

  /** No padding exactly when the offset is already aligned. */
  lemma PaddingZeroIff(offset: nat, alignment: nat)
    requires 0 < alignment
    ensures Padding(offset, alignment) == 0 <==> offset % alignment == 0
  {
    var r := offset % alignment;
    if r == 0 {
      ModUnique(alignment, alignment, 1, 0);
      assert Padding(offset, alignment) == alignment % alignment;
    } else {
      ModUnique(alignment - r, alignment, 0, alignment - r);
      assert Padding(offset, alignment) == alignment - r;
    }
  }

  /** The padding is the least one: no shorter skip reaches an aligned offset. */
  lemma PaddingLeast(offset: nat, alignment: nat, q: nat)
    requires 0 < alignment && q < Padding(offset, alignment)
    ensures (offset + q) % alignment != 0
  {
    var r := offset % alignment;
    PaddingZeroIff(offset, alignment);
    ModUnique(alignment - r, alignment, 0, alignment - r);
    assert offset == offset / alignment * alignment + r;
    ModUnique(offset + q, alignment, offset / alignment, r + q);
  }

  /** `current_offset -= size` on a `size_t`: wraps below zero. */
  function SubOffset(offset: nat, size: nat): (r: nat)
    requires offset < WORD && size < WORD
    ensures r < WORD
    ensures (r + size) % WORD == offset
    ensures size <= offset ==> r == offset - size
  {
    SubOffsetWraps(offset, size);
    if size <= offset then offset - size else offset + WORD - size
  }

  /** Adding 2^64 to the offset when the size exceeds it does not change it modulo 2^64. */
  lemma SubOffsetWraps(offset: nat, size: nat)
    requires offset < WORD && size < WORD
    ensures (if size <= offset then offset else offset + WORD) % WORD == offset
  {
    if size <= offset {
      ModUnique(offset, WORD, 0, offset);
    } else {
      ModUnique(offset + WORD, WORD, 1, offset);
    }
  }

  /** Releasing the most recent allocation, with the deleter's rollback of
      `sizeof(T)`, restores the offset it started from exactly when that
      allocation needed no padding; otherwise the padding is lost for good. */
  lemma ReleaseRestoresIff(offset: nat, size: nat, alignment: nat)
    requires 0 < alignment && offset + Padding(offset, alignment) + size < WORD
    ensures SubOffset(offset + Padding(offset, alignment) + size, size) == offset
            <==> offset % alignment == 0
    ensures SubOffset(offset + Padding(offset, alignment) + size, size) >= offset
  {
    PaddingZeroIff(offset, alignment);
  }

  class ArenaAllocator {
    const data: array<byte>
    var currentOffset: nat

    /** Both the arena size and the offset are `size_t` values. */
    ghost predicate Valid()
      reads this
    {
      data.Length < WORD && currentOffset < WORD
    }

    /** `ArenaAllocator(arena_size)`: a zero-filled arena, offset 0. */
    constructor (arenaSize: nat)
      requires arenaSize < WORD
      ensures Valid() && fresh(data)
      ensures data.Length == arenaSize && currentOffset == 0
      ensures forall i :: 0 <= i < arenaSize ==> data[i] == 0
    {
      data := new byte[arenaSize](_ => 0);
      currentOffset := 0;
    }

    /** `allocate`: the block starts at the current offset rounded up to
        alignment and the offset moves to its end. Nothing is checked
        against the arena's size. */
    method Allocate(size: nat, alignment: nat := MAX_ALIGN) returns (start: nat)
      requires Valid() && 0 < alignment
      requires currentOffset + Padding(currentOffset, alignment) + size < WORD
      modifies this
      ensures Valid()
      ensures start == old(currentOffset) + Padding(old(currentOffset), alignment)
      ensures start % alignment == 0
      ensures old(currentOffset) <= start < old(currentOffset) + alignment
      ensures currentOffset == start + size
    {
      var padding := (alignment - currentOffset % alignment) % alignment;
      currentOffset := currentOffset + padding;
      start := currentOffset;
      currentOffset := currentOffset + size;
    }

    /** `make_unique_arena<T>` / `make_shared_arena<T>`: allocate `sizeof(T)`
        bytes at `alignof(T)` and construct the object there, given here as
        the bytes of its representation. */
    method Make(bytes: seq<byte>, alignment: nat) returns (start: nat)
      requires Valid() && 0 < alignment
      requires currentOffset + Padding(currentOffset, alignment) + |bytes| <= data.Length
      modifies this, data
      ensures Valid()
      ensures start == old(currentOffset) + Padding(old(currentOffset), alignment)
      ensures currentOffset == start + |bytes|
      ensures data[start..start + |bytes|] == bytes
      ensures forall i :: 0 <= i < data.Length && !(start <= i < start + |bytes|) ==>
                data[i] == old(data[i])
    {
      start := Allocate(|bytes|, alignment);
      forall i | 0 <= i < |bytes| {
        data[start + i] := bytes[i];
      }
    }

    /** The deleter of `make_unique_arena` / `make_shared_arena` for an object
        of `size` bytes at start: zero its bytes and take `size` off the
        offset, whatever padding preceded the object and wherever it lies. */
    method Release(start: nat, size: nat)
      requires Valid() && start + size <= data.Length
      modifies this, data
      ensures Valid()
      ensures currentOffset == SubOffset(old(currentOffset), size)
      ensures forall i :: start <= i < start + size ==> data[i] == 0
      ensures forall i :: 0 <= i < data.Length && !(start <= i < start + size) ==>
                data[i] == old(data[i])
    {
      forall i | start <= i < start + size {
        data[i] := 0;
      }
      currentOffset := SubOffset(currentOffset, size);
    }
  }

  /** The `main` of arena_alloc.cpp, with `int` objects (4 bytes, aligned to 4) in an
      arena of 40 bytes, followed by the two deleters running in reverse. */
  method UsageScenario() {
    var arena := new ArenaAllocator(40);
    var p := arena.Make([42, 0, 0, 0], 4);
    var q := arena.Make([42, 0, 0, 0], 4);
    assert p == 0 && q == 4 && arena.currentOffset == 8;
    arena.Release(q, 4);
    arena.Release(p, 4);
    assert arena.currentOffset == 0 && arena.data[0] == 0;
    var r := arena.Allocate(1);
    var s := arena.Allocate(8, 8);
    assert r == 0 && s == 8 && arena.currentOffset == 16;
    arena.Release(s, 8);
    assert arena.currentOffset == 8;
  }

  /** The deleter assumes last-in first-out release: releasing an older
      object first moves the offset back into a live object, and the next
      allocation is handed bytes that object still occupies. */
  method OutOfOrderReleaseScenario() {
    var arena := new ArenaAllocator(40);
    var a := arena.Make([1, 0, 0, 0], 4);
    var b := arena.Make([2, 0, 0, 0], 4);
    arena.Release(a, 4);
    var c := arena.Make([3, 0, 0, 0], 4);
    assert b == 4 && c == 4;
    assert arena.data[4] == 3;
  }
}
