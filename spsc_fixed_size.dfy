/** `SPSCFixedSize<T, N>` (queues/spsc_fixed_size.cpp): a single-producer
    single-consumer queue of at most N elements of type T in a ring of N
    slots, addressed by the monotonic counters `read_idx` and `write_idx`
    modulo N. Each operation is one sequential step; the atomics are plain
    fields. */
module FixedSizeQueue {
  import opened RingBufferUtils

  class SpscFixedSize<T> {
    var readIdx: nat     // owned by the consumer
    var writeIdx: nat    // owned by the producer
    const buffer: array<T>
    /** `T{}`: the value-initialised element, which also fills the new ring. */
    const zero: T
    /** The elements pushed and not yet popped, oldest first. */
    ghost var contents: seq<T>

    /** The queue invariant: the `write_idx - read_idx` slots from `read_idx`
        on hold the queued elements in order, and there are at most N. */
    ghost predicate Valid()
      reads this, buffer
    {
      && |contents| <= buffer.Length
      && writeIdx == readIdx + |contents|
      && Extract(buffer[..], readIdx, |contents|) == contents
    }

    /** `SPSCFixedSize<T, N>`: both counters 0, every slot `T{}`. */
    constructor (n: nat, z: T)
      ensures Valid() && fresh(buffer)
      ensures buffer.Length == n && zero == z && contents == []
      ensures readIdx == 0 && writeIdx == 0
      ensures forall i :: 0 <= i < n ==> buffer[i] == z
    {
      readIdx, writeIdx := 0, 0;
      buffer := new T[n](_ => z);
      zero := z;
      contents := [];
    }

    /** `PushOne`: fails, changing nothing, when the queue already holds N
        elements; otherwise stores x at slot `write_idx % N` and publishes it. */
    method PushOne(x: T) returns (ok: bool)
      requires Valid()
      modifies this, buffer
      ensures Valid()
      ensures ok <==> old(writeIdx - readIdx) + 1 <= buffer.Length
      ensures ok ==> && contents == old(contents) + [x]
                     && writeIdx == old(writeIdx) + 1
                     && buffer[..] == old(buffer[..])[old(writeIdx) % buffer.Length := x]
      ensures !ok ==> && contents == old(contents)
                      && writeIdx == old(writeIdx)
                      && buffer[..] == old(buffer[..])
      ensures readIdx == old(readIdx)
    {
      var write := writeIdx;
      var read := readIdx;
      var used := write - read;
      if used + 1 > buffer.Length {
        return false;
      }
      ghost var before := buffer[..];
      var offset := write % buffer.Length;
      buffer[offset] := x;
      writeIdx := write + 1;
      contents := contents + [x];
      ok := true;

      OverwriteExtend(before, write, [], x);
      ZeroLength(before, write);
      assert [] + [x] == [x];
      ExtractAppend(before, read, old(contents), [x]);
    }

    /** `PushMany`: all or nothing. Fails before writing anything when the
        elements do not fit beside those queued; otherwise stores `data[i]` at
        slot `(write_idx + i) % N`, one by one, then publishes them all. */
    method PushMany(data: seq<T>) returns (ok: bool)
      requires Valid()
      modifies this, buffer
      ensures Valid()
      ensures ok <==> old(writeIdx - readIdx) + |data| <= buffer.Length
      ensures ok ==> && contents == old(contents) + data
                     && writeIdx == old(writeIdx) + |data|
                     && buffer[..] == Overwrite(old(buffer[..]), old(writeIdx), data)
      ensures !ok ==> && contents == old(contents)
                      && writeIdx == old(writeIdx)
                      && buffer[..] == old(buffer[..])
      ensures readIdx == old(readIdx)
    {
      var write := writeIdx;
      var read := readIdx;
      var used := write - read;
      if used + |data| > buffer.Length {
        return false;
      }
      ghost var before := buffer[..];
      ZeroLength(before, write);
      var i := 0;
      while i < |data|
        invariant 0 <= i <= |data|
        invariant buffer[..] == Overwrite(before, write, data[..i])
        modifies buffer
      {
        ghost var current := buffer[..];
        buffer[(write + i) % buffer.Length] := data[i];
        OverwriteExtend(before, write, data[..i], data[i]);
        assert data[..i + 1] == data[..i] + [data[i]];
        assert buffer[..] == current[Slot(buffer.Length, write, i) := data[i]];
        i := i + 1;
      }
      assert data[..i] == data;
      writeIdx := write + |data|;
      contents := contents + data;
      ok := true;

      ExtractAppend(before, read, old(contents), data);
    }

    /** `PopOne`: `T{}` on an empty queue, with nothing changed (a caller
        cannot tell this from a popped `T{}`); otherwise the oldest element,
        read from slot `read_idx % N`. */
    method PopOne() returns (x: T)
      requires Valid()
      modifies this
      ensures Valid()
      ensures old(contents) == [] ==> && x == zero
                                      && contents == old(contents)
                                      && readIdx == old(readIdx)
      ensures old(contents) != [] ==> && x == old(contents)[0]
                                      && contents == old(contents)[1..]
                                      && readIdx == old(readIdx) + 1
      ensures writeIdx == old(writeIdx)
    {
      var read := readIdx;
      var write := writeIdx;
      if read == write {
        return zero;
      }
      var offset := read % buffer.Length;
      x := buffer[offset];
      readIdx := read + 1;
      contents := contents[1..];

      ExtractDrop(buffer[..], read, |old(contents)|, 1);
      assert old(contents)[0] == Extract(buffer[..], read, |old(contents)|)[0];
    }

    /** `PopMany`: nothing, with nothing changed, on an empty queue or when
        fewer than `num` elements are published; otherwise the `num` oldest
        elements in order, read one by one from `(read_idx + i) % N`. */
    method PopMany(num: nat) returns (r: seq<T>)
      requires Valid()
      modifies this
      ensures Valid()
      ensures (old(contents) == [] || num > |old(contents)|) ==>
                && r == []
                && contents == old(contents)
                && readIdx == old(readIdx)
      ensures (old(contents) != [] && num <= |old(contents)|) ==>
                && r == old(contents)[..num]
                && contents == old(contents)[num..]
                && readIdx == old(readIdx) + num
      ensures writeIdx == old(writeIdx)
    {
      var read := readIdx;
      var write := writeIdx;
      if read == write {
        return [];
      }
      if read + num > write {
        return [];   // incomplete write
      }
      var payload := new T[num](_ => zero);
      var i := 0;
      while i < num
        invariant 0 <= i <= num
        invariant forall k :: 0 <= k < i ==> payload[k] == buffer[Slot(buffer.Length, read, k)]
        modifies payload
      {
        payload[i] := buffer[(read + i) % buffer.Length];
        i := i + 1;
      }
      readIdx := read + num;
      contents := contents[num..];
      r := payload[..];

      assert r == Extract(buffer[..], read, num);
      ExtractDrop(buffer[..], read, |old(contents)|, num);
      assert Extract(buffer[..], read, |old(contents)|)[..num] == r;
    }
  }

  /** The wrap-around scenario of test 5 of spsc_fixed_size.cpp on `SPSCFixedSize<int, 4>`:
      three pushes and a pop, then a fourth push into slot 3; the elements
      come out in push order. */
  method WrapAroundScenario() {
    var q := new SpscFixedSize<int>(4, 0);
    var ok := q.PushOne(10);
    ok := q.PushOne(20);
    ok := q.PushOne(30);
    assert ok && q.contents == [10, 20, 30];
    var x := q.PopOne();
    assert x == 10;
    ok := q.PushOne(40);
    assert ok && q.contents == [20, 30, 40];
    x := q.PopOne();
    assert x == 20;
    x := q.PopOne();
    assert x == 30;
    x := q.PopOne();
    assert x == 40 && q.readIdx == q.writeIdx == 4;
  }

  /** Once the counters pass N, a push lands in slot `write_idx % N`: on
      `SPSCFixedSize<int, 2>` the third element goes back to slot 0. */
  method WrapSlotScenario() {
    var q := new SpscFixedSize<int>(2, 0);
    var ok := q.PushOne(1);
    ok := q.PushOne(2);
    var r := q.PopMany(2);
    assert r == [1, 2] && q.readIdx == 2;
    ok := q.PushOne(3);
    assert ok && q.buffer[0] == 3 && q.buffer[1] == 2;
    var x := q.PopOne();
    assert x == 3;
  }

  /** Capacity on `SPSCFixedSize<int, 4>`, after test 4 of spsc_fixed_size.cpp:
      a bulk push of four elements fills the queue (the test uses four
      single pushes) and a fifth push is refused; a bulk pop of more than is
      queued returns nothing and leaves the queue as it was. */
  method CapacityScenario() {
    var q := new SpscFixedSize<int>(4, 0);
    var ok := q.PushMany([1, 2, 3, 4]);
    assert ok;
    ok := q.PushOne(5);
    assert !ok;
    ok := q.PushMany([]);
    assert ok;
    var r := q.PopMany(5);
    assert r == [] && q.contents == [1, 2, 3, 4];
    r := q.PopMany(0);
    assert r == [] && q.readIdx == 0;
    r := q.PopMany(4);
    assert r == [1, 2, 3, 4];
  }
}
