/** `SPSC<N>` (queues/spsc.cpp): a single-producer single-consumer queue of
    variable-length byte messages in a ring of N bytes. Each message is
    stored as an 8-byte length header followed by its payload; `read_idx`
    and `write_idx` grow without bound and are reduced modulo N to address
    the ring. Each operation is one sequential step; the atomics are plain
    fields. */
module SpscQueue {
  import opened Basics
  import opened SizeHeader
  import opened RingBufferUtils

  /** Bytes a message occupies in the ring: header plus payload. */
  function FrameSize(m: seq<byte>): (k: nat)
    ensures k >= HEADER_SIZE
  {
    HEADER_SIZE + |m|
  }

  /** Bytes a sequence of messages occupies in the ring. */
  function TotalSize(msgs: seq<seq<byte>>): (k: nat)
    ensures k >= HEADER_SIZE * |msgs|
  {
    if msgs == [] then 0 else FrameSize(msgs[0]) + TotalSize(msgs[1..])
  }

  lemma {:induction false} TotalSizeAppend(msgs: seq<seq<byte>>, m: seq<byte>)
    ensures TotalSize(msgs + [m]) == TotalSize(msgs) + FrameSize(m)
  {
    if msgs != [] {
      assert (msgs + [m])[1..] == msgs[1..] + [m];
      TotalSizeAppend(msgs[1..], m);
    }
  }

  /** msgs are laid out in the ring from logical offset `at`, one frame after
      the other: each header decodes to its payload's length and the payload
      follows it, both possibly wrapping. */
  ghost predicate Framed(buf: seq<byte>, at: nat, msgs: seq<seq<byte>>)
    decreases |msgs|
  {
    msgs == [] ||
    (&& 0 < |buf|
     && |msgs[0]| < WORD
     && Extract(buf, at, HEADER_SIZE) == EncodeLength(|msgs[0]|)
     && Extract(buf, at + HEADER_SIZE, |msgs[0]|) == msgs[0]
     && Framed(buf, at + FrameSize(msgs[0]), msgs[1..]))
  }

  /** Writing into the free part of the ring keeps every queued frame intact. */
  lemma {:induction false} FramedUnaffected(buf: seq<byte>, at: nat, msgs: seq<seq<byte>>,
                                            offset: nat, src: seq<byte>)
    requires 0 < |buf| && |src| <= |buf|
    requires Framed(buf, at, msgs)
    requires at + TotalSize(msgs) <= offset && offset + |src| <= at + |buf|
    ensures Framed(Overwrite(buf, offset, src), at, msgs)
    decreases |msgs|
  {
    if msgs != [] {
      var m := msgs[0];
      ExtractUnaffected(buf, offset, src, at, HEADER_SIZE);
      ExtractUnaffected(buf, offset, src, at + HEADER_SIZE, |m|);
      FramedUnaffected(buf, at + FrameSize(m), msgs[1..], offset, src);
    }
  }

  /** Frames laid out back to back concatenate. */
  lemma {:induction false} FramedConcat(buf: seq<byte>, at: nat, a: seq<seq<byte>>, b: seq<seq<byte>>)
    requires Framed(buf, at, a) && Framed(buf, at + TotalSize(a), b)
    ensures Framed(buf, at, a + b)
    decreases |a|
  {
    if a != [] {
      assert (a + b)[0] == a[0];
      assert (a + b)[1..] == a[1..] + b;
      assert TotalSize(a) == FrameSize(a[0]) + TotalSize(a[1..]);
      FramedConcat(buf, at + FrameSize(a[0]), a[1..], b);
    } else {
      assert a + b == b;
    }
  }

  /** The ring after `Push` writes the header and then the payload of data
      at logical offset w. */
  function PushedRing(buf: seq<byte>, w: nat, data: seq<byte>): (r: seq<byte>)
    requires HEADER_SIZE + |data| <= |buf| < WORD
    ensures |r| == |buf|
  {
    Overwrite(Overwrite(buf, w, EncodeLength(|data|)), w + HEADER_SIZE, data)
  }

  /** A frame pushed at w can be read back from w: its header decodes to the
      payload's length and its payload follows. */
  lemma FramedPushed(buf: seq<byte>, w: nat, data: seq<byte>)
    requires HEADER_SIZE + |data| <= |buf| < WORD
    ensures Framed(PushedRing(buf, w, data), w, [data])
  {
    var h := EncodeLength(|data|);
    var buf1 := Overwrite(buf, w, h);
    var buf2 := Overwrite(buf1, w + HEADER_SIZE, data);
    assert buf2 == PushedRing(buf, w, data);
    calc {
      Extract(buf2, w, HEADER_SIZE);
      { ExtractUnaffected(buf1, w + HEADER_SIZE, data, w, HEADER_SIZE); }
      Extract(buf1, w, HEADER_SIZE);
      { ExtractOverwrite(buf, w, h); }
      h;
    }
    ExtractOverwrite(buf1, w + HEADER_SIZE, data);
    assert [data][0] == data && [data][1..] == [];
    assert Framed(buf2, w + FrameSize(data), []);
  }

  /** Pushing a frame right after the queued ones, when it fits, keeps the
      queued frames and appends the new one: FIFO order is preserved, however
      the header or the payload wraps. */
  lemma FramedPush(buf: seq<byte>, at: nat, msgs: seq<seq<byte>>, data: seq<byte>)
    requires |buf| < WORD
    requires Framed(buf, at, msgs)
    requires TotalSize(msgs) + FrameSize(data) <= |buf|
    ensures Framed(PushedRing(buf, at + TotalSize(msgs), data), at, msgs + [data])
  {
    var w := at + TotalSize(msgs);
    var h := EncodeLength(|data|);
    var buf1 := Overwrite(buf, w, h);
    var buf2 := Overwrite(buf1, w + HEADER_SIZE, data);
    assert buf2 == PushedRing(buf, w, data);
    FramedUnaffected(buf, at, msgs, w, h);
    assert Framed(buf1, at, msgs);
    FramedUnaffected(buf1, at, msgs, w + HEADER_SIZE, data);
    assert Framed(buf2, at, msgs);
    FramedPushed(buf, w, data);
    assert Framed(buf2, w, [data]);
    FramedConcat(buf2, at, msgs, [data]);
  }

  /** The two copies `Push` makes at `write % N` and `write % N + 8` are the
      copies at logical offsets write and write + 8. */
  lemma PushOffsets(buf: seq<byte>, write: nat, offset: nat, data: seq<byte>)
    requires 0 < |buf| < WORD && HEADER_SIZE + |data| <= |buf|
    requires offset == write % |buf|
    ensures Overwrite(Overwrite(buf, offset, EncodeLength(|data|)), offset + HEADER_SIZE, data)
            == PushedRing(buf, write, data)
  {
    var n := |buf|;
    var h := EncodeLength(|data|);
    assert write == write / n * n + offset;
    ModShift(offset, write / n, n);
    assert offset % n == write % n;
    ModShift(offset + HEADER_SIZE, write / n, n);
    assert (offset + HEADER_SIZE) % n == (write + HEADER_SIZE) % n;
    var b1 := Overwrite(buf, offset, h);
    ResidueOnly(buf, offset, write, h, 0);
    assert b1 == Overwrite(buf, write, h);
    ResidueOnly(b1, offset + HEADER_SIZE, write + HEADER_SIZE, data, 0);
  }

  /** What `Pop` finds at the front of a non-empty queue: reading from
      `read % N` yields the oldest message's header and then its payload, and
      the remaining messages are framed from the next frame on. */
  lemma FramedFront(buf: seq<byte>, read: nat, msgs: seq<seq<byte>>)
    requires Framed(buf, read, msgs) && msgs != []
    ensures 0 < |buf| && |msgs[0]| < WORD
    ensures Extract(buf, read % |buf|, HEADER_SIZE) == EncodeLength(|msgs[0]|)
    ensures Extract(buf, read % |buf| + HEADER_SIZE, |msgs[0]|) == msgs[0]
    ensures Framed(buf, read + FrameSize(msgs[0]), msgs[1..])
    ensures TotalSize(msgs) == FrameSize(msgs[0]) + TotalSize(msgs[1..])
  {
    var n := |buf|;
    var offset := read % n;
    assert read == read / n * n + offset;
    ModShift(offset, read / n, n);
    ModShift(offset + HEADER_SIZE, read / n, n);
    ResidueOnly(buf, offset, read, [], HEADER_SIZE);
    ResidueOnly(buf, offset + HEADER_SIZE, read + HEADER_SIZE, [], |msgs[0]|);
  }

  class Spsc {
    var readIdx: nat     // owned by the consumer
    var writeIdx: nat    // owned by the producer
    const buffer: array<byte>
    /** The messages pushed and not yet popped, oldest first. */
    ghost var messages: seq<seq<byte>>

    /** The queue invariant: the bytes between the counters are exactly the
        frames of the queued messages, and they fit in the ring, so
        0 <= write_idx - read_idx <= N. */
    ghost predicate Valid()
      reads this, buffer
    {
      && buffer.Length < WORD
      && TotalSize(messages) <= buffer.Length
      && writeIdx == readIdx + TotalSize(messages)
      && Framed(buffer[..], readIdx, messages)
    }

    /** `SPSC<N>`: both counters 0 and a zero-filled ring. */
    constructor (n: nat)
      requires n < WORD
      ensures Valid() && fresh(buffer)
      ensures buffer.Length == n && messages == []
      ensures readIdx == 0 && writeIdx == 0
      ensures forall i :: 0 <= i < n ==> buffer[i] == 0
    {
      readIdx, writeIdx := 0, 0;
      buffer := new byte[n](_ => 0);
      messages := [];
    }

    /** Member `CopyIn`: the same code as the free helper, on this ring. */
    method CopyIn(offset: nat, src: seq<byte>)
      requires 0 < buffer.Length && |src| <= buffer.Length
      modifies buffer
      ensures buffer[..] == Overwrite(old(buffer[..]), offset, src)
    {
      RingBufferUtils.CopyIn(buffer, offset, src);
    }

    /** Member `CopyOut`: the same code as the free helper, from this ring. */
    method CopyOut(offset: nat, dst: array<byte>, len: nat)
      requires 0 < buffer.Length && len <= buffer.Length && len <= dst.Length
      requires dst != buffer
      modifies dst
      ensures dst[..len] == Extract(buffer[..], offset, len)
      ensures dst[len..] == old(dst[len..])
    {
      RingBufferUtils.CopyOut(buffer, offset, dst, len);
    }

    /** `Push`: all or nothing. Fails, changing nothing, when the frame can
        never fit or when it does not fit beside the bytes in use; otherwise
        writes header and payload at `write_idx` and publishes them. */
    method Push(data: seq<byte>) returns (ok: bool)
      requires Valid()
      modifies this, buffer
      ensures Valid()
      ensures ok <==> (&& HEADER_SIZE + |data| <= buffer.Length
                       && old(writeIdx - readIdx) + HEADER_SIZE + |data| <= buffer.Length)
      ensures ok ==> && messages == old(messages) + [data]
                     && writeIdx == old(writeIdx) + HEADER_SIZE + |data|
                     && buffer[..] == PushedRing(old(buffer[..]), old(writeIdx), data)
      ensures !ok ==> && messages == old(messages)
                      && writeIdx == old(writeIdx)
                      && buffer[..] == old(buffer[..])
      ensures readIdx == old(readIdx)
    {
      var payloadSize := |data|;
      var totalSize := HEADER_SIZE + payloadSize;
      if totalSize > buffer.Length {
        return false;
      }
      var write := writeIdx;
      var read := readIdx;
      var used := write - read;
      if used + totalSize > buffer.Length {
        return false;
      }
      ghost var before := buffer[..];
      var offset := write % buffer.Length;
      PushOffsets(before, write, offset, data);
      CopyIn(offset, EncodeLength(payloadSize));
      CopyIn(offset + HEADER_SIZE, data);
      assert buffer[..] == PushedRing(before, write, data);

      FramedPush(before, read, messages, data);
      TotalSizeAppend(messages, data);
      writeIdx := write + totalSize;
      messages := messages + [data];
      ok := true;
    }

    /** The first half of `Pop`: the `size_t` in the header at offset,
        copied out of the ring into a fresh 8-byte buffer. */
    method ReadHeader(offset: nat) returns (size: nat)
      requires HEADER_SIZE <= buffer.Length
      ensures size == DecodeLength(Extract(buffer[..], offset, HEADER_SIZE))
    {
      var header := new byte[HEADER_SIZE](_ => 0);
      CopyOut(offset, header, HEADER_SIZE);
      assert header[..] == header[..HEADER_SIZE];
      size := DecodeLength(header[..]);
    }

    /** The second half of `Pop`: size payload bytes from offset, copied out
        of the ring into a fresh buffer; nothing is copied when size is 0. */
    method ReadPayload(offset: nat, size: nat) returns (payload: seq<byte>)
      requires 0 < buffer.Length && size <= buffer.Length
      ensures payload == Extract(buffer[..], offset, size)
    {
      var dst := new byte[size](_ => 0);
      if size > 0 {
        CopyOut(offset, dst, size);
        assert dst[..] == dst[..size];
      }
      payload := dst[..];
    }

    /** `Pop`: none on an empty queue, and none when the header announces
        more bytes than are published; otherwise the oldest payload, with
        `read_idx` advanced past its frame. The ring is only read. */
    method Pop() returns (r: Option<seq<byte>>)
      requires Valid()
      modifies this
      ensures Valid()
      ensures r == None <==> old(readIdx) == old(writeIdx)
      ensures old(messages) == [] ==> && r == None
                                      && messages == old(messages)
                                      && readIdx == old(readIdx)
      ensures old(messages) != [] ==> && r == Some(old(messages)[0])
                                      && messages == old(messages)[1..]
                                      && readIdx == old(readIdx) + HEADER_SIZE + |old(messages)[0]|
      ensures writeIdx == old(writeIdx)
    {
      var read := readIdx;
      var write := writeIdx;
      if read == write {
        return None;
      }
      ghost var m := messages[0];
      ghost var ring := buffer[..];
      FramedFront(ring, read, messages);
      DecodeEncodeLength(|m|);

      var offset := read % buffer.Length;
      var payloadSize := ReadHeader(offset);
      assert payloadSize == |m|;

      var totalSize := HEADER_SIZE + payloadSize;
      if read + totalSize > write {
        return None;   // incomplete write
      }

      var payload := ReadPayload(offset + HEADER_SIZE, payloadSize);
      readIdx := read + totalSize;
      messages := messages[1..];
      r := Some(payload);
    }
  }

  /** The wrap-around scenario of queues/spscv2.cpp (test 6) on `SPSC<32>`:
      after frames of 10, 10 and 9 bytes and one pop, the fourth frame's
      header starts at slot 29 and wraps; every message still comes back
      byte for byte, in push order. */
  method WrapAroundScenario() {
    var q := new Spsc(32);
    var ok := q.Push([0xAA, 0xBB]);
    assert ok && q.writeIdx == 10;
    ok := q.Push([0xCC, 0xDD]);
    assert ok && q.writeIdx == 20;
    ok := q.Push([0xEE]);
    assert ok && q.writeIdx == 29;
    assert q.messages == [[0xAA, 0xBB], [0xCC, 0xDD], [0xEE]];
    var r := q.Pop();
    assert r == Some([0xAA, 0xBB]) && q.readIdx == 10;
    ok := q.Push([0xFF, 0x00]);
    assert ok && q.writeIdx == 39 && q.writeIdx % 32 == 7;
    assert q.messages == [[0xCC, 0xDD], [0xEE], [0xFF, 0x00]];
    r := q.Pop();
    assert r == Some([0xCC, 0xDD]);
    r := q.Pop();
    assert r == Some([0xEE]);
    r := q.Pop();
    assert r == Some([0xFF, 0x00]) && q.messages == [];
    r := q.Pop();
    assert r == None;
    r := q.Pop();
    assert r == None && q.readIdx == q.writeIdx == 39;
  }

  /** Capacity on `SPSC<16>`: an 8-byte payload makes a 16-byte frame, which
      fits only in the empty queue; a second one is refused and changes
      nothing, and so is any payload over 8 bytes. */
  method CapacityScenario() {
    var q := new Spsc(16);
    var ok := q.Push([0, 0, 0, 0, 0, 0, 0, 0, 0]);
    assert !ok;
    ok := q.Push([1, 2, 3, 4, 5, 6, 7, 8]);
    assert ok && q.writeIdx == 16;
    ok := q.Push([9, 10, 11, 12, 13, 14, 15, 16]);
    assert !ok && q.writeIdx == 16;
    ok := q.Push([]);
    assert !ok;
    var r := q.Pop();
    assert r == Some([1, 2, 3, 4, 5, 6, 7, 8]);
    ok := q.Push([]);
    assert ok;
    r := q.Pop();
    assert r == Some([]) && q.readIdx == 24;
  }
}
