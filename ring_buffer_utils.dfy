/** Wrap-around copies into and out of a fixed ring of N slots.

    A logical offset (one of the queues' monotonic counters) names slot
    `offset % N`; a span of `len` consecutive logical positions starting at
    `offset` occupies the slots `(offset + i) % N` for `i < len`. `Overwrite`
    and `Extract` are the meaning of the copy helpers, stated slot by slot;
    `CopyIn` and `CopyOut` are the helpers themselves, two `memcpy` segments
    each. */
module RingBufferUtils {
  import opened Basics

  /** The slot holding position i of a span that starts at logical offset. */
  function Slot(n: nat, offset: int, i: int): (s: nat)
    requires 0 < n
    ensures s < n
  {
    (offset + i) % n
  }

  /** How far slot j lies ahead of logical offset, going round the ring. */
  function Distance(n: nat, offset: int, j: int): (d: nat)
    requires 0 < n
    ensures d < n
  {
    (j - offset) % n
  }

  /** The ring after copying src in at logical offset: the slot at distance
      d < |src| from offset holds src[d]; every other slot keeps its value. */
  function Overwrite<E>(buf: seq<E>, offset: nat, src: seq<E>): (r: seq<E>)
    requires |src| <= |buf|
    ensures |r| == |buf|
  {
    seq(|buf|, j requires 0 <= j < |buf| =>
      var d := Distance(|buf|, offset, j);
      if d < |src| then src[d] else buf[j])
  }

  /** The len values copied out of the ring from logical offset. */
  function Extract<E>(buf: seq<E>, offset: nat, len: nat): (r: seq<E>)
    requires len == 0 || 0 < |buf|
    ensures |r| == len
  {
    seq(len, i requires 0 <= i < len => buf[Slot(|buf|, offset, i)])
  }

  // ---------------------------------------------------------------------
  // Slots and distances

  /** The distance from o to the slot of position i of a span at b. */
  lemma DistanceOfSlot(n: nat, o: int, b: int, i: int)
    requires 0 < n
    ensures Distance(n, o, Slot(n, b, i)) == (b + i - o) % n
  {
    ModSubReduce(b + i, o, n);
  }

  /** Position d of a span at o lands on the slot at distance d from o. */
  lemma SlotOfDistance(n: nat, o: int, j: int)
    requires 0 < n && 0 <= j < n
    ensures Slot(n, o, Distance(n, o, j)) == j
  {
    ModAddReduce(o, j - o, n);
    assert o + (j - o) == j;
    ModSmall(j, n);
  }

  // ---------------------------------------------------------------------
  // What a copy in and a copy out mean

  /** After copying src in at offset, position i of the span holds src[i]. */
  lemma OverwriteAt<E>(buf: seq<E>, offset: nat, src: seq<E>, i: nat)
    requires |src| <= |buf| && i < |src|
    ensures Overwrite(buf, offset, src)[Slot(|buf|, offset, i)] == src[i]
  {
    DistanceOfSlot(|buf|, offset, offset, i);
    ModSmall(i, |buf|);
  }

  /** A copy in leaves every slot outside the |src| wrapped positions as it was. */
  lemma OverwriteElsewhere<E>(buf: seq<E>, offset: nat, src: seq<E>, j: nat)
    requires |src| <= |buf| && j < |buf|
    requires forall i :: 0 <= i < |src| ==> Slot(|buf|, offset, i) != j
    ensures Overwrite(buf, offset, src)[j] == buf[j]
  {
    var d := Distance(|buf|, offset, j);
    if d < |src| {
      SlotOfDistance(|buf|, offset, j);
      assert false;
    }
  }

  /** Round trip: copying out what was just copied in at the same offset
      returns exactly the source bytes. */
  lemma ExtractOverwrite<E>(buf: seq<E>, offset: nat, src: seq<E>)
    requires |src| <= |buf|
    ensures Extract(Overwrite(buf, offset, src), offset, |src|) == src
  {
    var r := Extract(Overwrite(buf, offset, src), offset, |src|);
    forall i | 0 <= i < |src| ensures r[i] == src[i] {
      OverwriteAt(buf, offset, src, i);
    }
  }

  /** Only offset mod N matters: offsets with the same residue copy in and
      copy out identically. */
  lemma ResidueOnly<E>(buf: seq<E>, o1: nat, o2: nat, src: seq<E>, len: nat)
    requires 0 < |buf| && o1 % |buf| == o2 % |buf| && |src| <= |buf|
    ensures Overwrite(buf, o1, src) == Overwrite(buf, o2, src)
    ensures Extract(buf, o1, len) == Extract(buf, o2, len)
  {
    var n := |buf|;
    var k := o1 / n - o2 / n;
    SameResidue(o1, o2, n);
    forall j | 0 <= j < n ensures Distance(n, o1, j) == Distance(n, o2, j) {
      assert j - o1 == (j - o2) + (-k) * n;
      ModShift(j - o2, -k, n);
    }
    forall i | 0 <= i < len ensures Slot(n, o1, i) == Slot(n, o2, i) {
      assert o1 + i == (o2 + i) + k * n;
      ModShift(o2 + i, k, n);
    }
  }

  /** A zero-length copy changes nothing and yields nothing. */
  lemma ZeroLength<E>(buf: seq<E>, offset: nat)
    ensures Overwrite(buf, offset, []) == buf
    ensures Extract(buf, offset, 0) == []
  {
  }

  /** A copy in does not disturb a span that ends before it and that it does
      not reach round the ring. */
  lemma ExtractUnaffected<E>(buf: seq<E>, offset: nat, src: seq<E>, o2: nat, len: nat)
    requires 0 < |buf| && |src| <= |buf|
    requires o2 + len <= offset && offset + |src| <= o2 + |buf|
    ensures Extract(Overwrite(buf, offset, src), o2, len) == Extract(buf, o2, len)
  {
    var n := |buf|;
    forall i | 0 <= i < len
      ensures Overwrite(buf, offset, src)[Slot(n, o2, i)] == buf[Slot(n, o2, i)]
    {
      DistanceOfSlot(n, offset, o2, i);
      ModSmall(o2 + i - offset, n);
    }
  }

  /** Copying a span in one more element at a time: the new element goes to
      the next slot and nothing else moves. */
  lemma OverwriteExtend<E>(buf: seq<E>, offset: nat, s: seq<E>, x: E)
    requires |s| + 1 <= |buf|
    ensures Overwrite(buf, offset, s + [x])
         == Overwrite(buf, offset, s)[Slot(|buf|, offset, |s|) := x]
  {
    var n := |buf|;
    var k := Slot(n, offset, |s|);
    forall j | 0 <= j < n
      ensures Overwrite(buf, offset, s + [x])[j] == Overwrite(buf, offset, s)[k := x][j]
    {
      if j == k {
        OverwriteAt(buf, offset, s + [x], |s|);
      } else if Distance(n, offset, j) == |s| {
        SlotOfDistance(n, offset, j);
        assert false;
      }
    }
  }

  /** Appending: copying src in right after the len values that start at
      offset extends what can be copied out from offset by src. */
  lemma ExtractAppend<E>(buf: seq<E>, offset: nat, c: seq<E>, src: seq<E>)
    requires |c| + |src| <= |buf| && Extract(buf, offset, |c|) == c
    ensures Extract(Overwrite(buf, offset + |c|, src), offset, |c| + |src|) == c + src
  {
    var n := |buf|;
    var r := Extract(Overwrite(buf, offset + |c|, src), offset, |c| + |src|);
    forall i | 0 <= i < |c| + |src| ensures r[i] == (c + src)[i] {
      DistanceOfSlot(n, offset + |c|, offset, i);
      ModSmall(i - |c|, n);
      if i < |c| {
        assert buf[Slot(n, offset, i)] == c[i];
      }
    }
  }

  /** Dropping the first k values of a span copied out is the same as copying
      out from k positions later. */
  lemma ExtractDrop<E>(buf: seq<E>, offset: nat, len: nat, k: nat)
    requires (len == 0 || 0 < |buf|) && k <= len
    ensures Extract(buf, offset, len)[k..] == Extract(buf, offset + k, len - k)
  {
    var a := Extract(buf, offset, len)[k..];
    var b := Extract(buf, offset + k, len - k);
    forall i | 0 <= i < len - k ensures a[i] == b[i] {
      assert offset + k + i == offset + (k + i);
    }
  }

  // ---------------------------------------------------------------------
  // The two memcpy segments

  /** How a wrapped copy of len bytes at offset is split: `first` bytes at
      slot `start`, then the remaining `second` bytes at slot 0. */
  datatype Segments = Segments(start: nat, first: nat, second: nat)

  /** The split computed by both helpers: `start = offset % N`,
      `first = min(len, N - start)`, `second = len - first`. Both segments
      lie inside the ring and the second ends before the first begins. */
  function Split(n: nat, offset: nat, len: nat): (g: Segments)
    requires 0 < n && len <= n
    ensures g.start == offset % n
    ensures g.first + g.second == len
    ensures g.start + g.first <= n
    ensures g.second <= g.start
    ensures g.second > 0 ==> g.start + g.first == n
  {
    var start := offset % n;
    var first := if len < n - start then len else n - start;
    Segments(start, first, len - first)
  }

  /** The slot of each position of the span, segment by segment. */
  lemma SplitSlot(n: nat, offset: nat, len: nat, i: nat)
    requires 0 < n && len <= n && i < len
    ensures var g := Split(n, offset, len);
      Slot(n, offset, i) == if i < g.first then g.start + i else i - g.first
  {
    var g := Split(n, offset, len);
    var q := offset / n;
    assert offset == q * n + g.start;
    if i < g.first {
      ModUnique(offset + i, n, q, g.start + i);
    } else {
      ModUnique(offset + i, n, q + 1, i - g.first);
    }
  }

  /** The distance of each slot from offset, segment by segment; slots in
      neither segment lie at distance len or more. */
  lemma SplitDistance(n: nat, offset: nat, len: nat, j: nat)
    requires 0 < n && len <= n && j < n
    ensures var g := Split(n, offset, len);
      && (g.start <= j < g.start + g.first ==> Distance(n, offset, j) == j - g.start)
      && (j < g.second ==> Distance(n, offset, j) == g.first + j)
      && (!(g.start <= j < g.start + g.first) && !(j < g.second) ==> Distance(n, offset, j) >= len)
  {
    var g := Split(n, offset, len);
    var q := offset / n;
    assert offset == q * n + g.start;
    if g.start <= j {
      ModUnique(j - offset, n, -q, j - g.start);
    } else {
      ModUnique(j - offset, n, -q - 1, j + n - g.start);
    }
  }

  /** `CopyIn` (ring_buffer_utils.hpp): writes src into the ring at logical
      offset, in at most two segments. */
  method CopyIn(buffer: array<byte>, offset: nat, src: seq<byte>)
    requires 0 < buffer.Length && |src| <= buffer.Length
    modifies buffer
    ensures buffer[..] == Overwrite(old(buffer[..]), offset, src)
  {
    var g := Split(buffer.Length, offset, |src|);
    forall i | 0 <= i < g.first {
      buffer[g.start + i] := src[i];
    }
    if |src| > g.first {
      forall i | 0 <= i < |src| - g.first {
        buffer[i] := src[g.first + i];
      }
    }
    forall j | 0 <= j < buffer.Length
      ensures buffer[j] == Overwrite(old(buffer[..]), offset, src)[j]
    {
      SplitDistance(buffer.Length, offset, |src|, j);
      if g.start <= j < g.start + g.first {
        assert buffer[g.start + (j - g.start)] == src[j - g.start];
      } else if j < g.second {
        assert buffer[j] == src[g.first + j];
      }
    }
  }

  /** `CopyOut` (ring_buffer_utils.hpp): fills the first len bytes of dst from
      the ring at logical offset; the ring is read-only. */
  method CopyOut(buffer: array<byte>, offset: nat, dst: array<byte>, len: nat)
    requires 0 < buffer.Length && len <= buffer.Length && len <= dst.Length
    requires dst != buffer
    modifies dst
    ensures dst[..len] == Extract(buffer[..], offset, len)
    ensures dst[len..] == old(dst[len..])
  {
    var g := Split(buffer.Length, offset, len);
    forall i | 0 <= i < g.first {
      dst[i] := buffer[g.start + i];
    }
    if len > g.first {
      forall i | 0 <= i < len - g.first {
        dst[g.first + i] := buffer[i];
      }
    }
    forall i | 0 <= i < len ensures dst[i] == buffer[Slot(buffer.Length, offset, i)] {
      SplitSlot(buffer.Length, offset, len, i);
      if g.first <= i {
        assert dst[g.first + (i - g.first)] == buffer[i - g.first];
      }
    }
  }
}
