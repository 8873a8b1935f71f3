/** UnsafeOutput: a byte[] write buffer that stores primitive values and raw memory
    directly, in the host's byte order. The state it inherits from Output (the buffer,
    the write cursor, the capacity, the maximum capacity and an optional OutputStream) is
    declared here, with stand-ins for Output's require, flush and setBuffer. */
module UnsafeOutputs {
  import opened ByteImages
  import opened CopyRequests

  /** The largest size the buffer may grow to: -1 at construction means no maximum. */
  datatype Limit = Unbounded | AtMost(bound: nat) {
    predicate Admits(size: nat) {
      Unbounded? || size <= bound
    }
  }

  /** The limit that a `maxBufferSize` argument denotes. */
  function LimitOf(maxBufferSize: int): (l: Limit)
    requires maxBufferSize >= -1
    ensures l.Unbounded? <==> maxBufferSize == -1
    ensures forall size: nat :: l.Admits(size) <==> (maxBufferSize == -1 || size <= maxBufferSize)
  {
    if maxBufferSize == -1 then Unbounded else AtMost(maxBufferSize)
  }

  function Min(a: int, b: int): (r: int)
    ensures r <= a && r <= b && (r == a || r == b)
  {
    if a <= b then a else b
  }

  function Max(a: int, b: int): (r: int)
    ensures a <= r && b <= r && (r == a || r == b)
  {
    if a <= b then b else a
  }

  /** One doubling step of the buffer's growth, never past the limit. */
  function Doubled(capacity: nat, limit: Limit): (r: nat)
    ensures limit.Admits(r)
    ensures limit.Admits(capacity) ==> capacity <= r
    ensures capacity > 0 && r <= capacity ==> limit.AtMost? && r == limit.bound
  {
    match limit
    case Unbounded => 2 * capacity
    case AtMost(m) => Min(2 * capacity, m)
  }

  /** The chunk a later pass of the bulk copy asks require for, as written:
      `Math.min(capacity, count)`. With bytes still to copy it is empty exactly when the
      capacity is 0, and then the pass makes no progress. */
  function ChunkAsWritten(capacity: nat, count: nat): (r: nat)
    ensures r <= count && r <= capacity
    ensures count > 0 ==> (r == 0 <==> capacity == 0)
  {
    Min(capacity, count)
  }

  /** The chunk with a floor of one byte, `Math.min(Math.max(capacity, 1), count)`: while
      bytes remain to be copied it is never empty, so every later pass makes progress; and
      whenever the capacity is positive it is the chunk the source asks for. */
  function Chunk(capacity: nat, count: nat): (r: nat)
    ensures r <= count && r <= Max(capacity, 1)
    ensures count > 0 ==> 0 < r
    ensures capacity > 0 ==> r == ChunkAsWritten(capacity, count)
  {
    Min(Max(capacity, 1), count)
  }

  /** `after` is `before` followed by a proper prefix of `bytes`: what a bulk copy that fails
      part-way leaves behind. */
  ghost predicate PartlyAppended(before: seq<byte>, after: seq<byte>, bytes: seq<byte>) {
    |before| <= |after| < |before| + |bytes| &&
    after == before + bytes[.. |after| - |before|]
  }

  /** Bytes `lo .. mid` of `all` are a proper prefix of its bytes `lo .. hi`. */
  lemma PrefixIsPartlyAppended(before: seq<byte>, after: seq<byte>, all: seq<byte>, lo: nat, mid: nat, hi: nat)
    requires lo <= mid < hi <= |all| && after == before + all[lo .. mid]
    ensures PartlyAppended(before, after, all[lo .. hi])
  {
    assert all[lo .. mid] == all[lo .. hi][.. mid - lo];
  }

  /** Appending bytes `mid .. hi` of `all` after its bytes `lo .. mid` appends bytes `lo .. hi`. */
  lemma AppendedSlices(w0: seq<byte>, w1: seq<byte>, w2: seq<byte>, all: seq<byte>, lo: nat, mid: nat, hi: nat)
    requires lo <= mid <= hi <= |all|
    requires w1 == w0 + all[lo .. mid] && w2 == w1 + all[mid .. hi]
    ensures w2 == w0 + all[lo .. hi]
  {
    assert all[lo .. mid] + all[mid .. hi] == all[lo .. hi];
  }

  /** With the same flushed bytes `f` in front, the buffered bytes `b` are the old ones `b0`
      followed by `x`. */
  lemma BufferedAfterSamePrefix(f: seq<byte>, b: seq<byte>, b0: seq<byte>, x: seq<byte>)
    requires f + b == (f + b0) + x
    ensures b == b0 + x
  {
    assert b == (f + b) [|f| ..];
    assert ((f + b0) + x)[|f| ..] == b0 + x;
  }

  class UnsafeOutput {
    /** The bytes written and not yet flushed are `buffer[..position]`. */
    var buffer: array<byte>
    var position: nat
    var capacity: nat
    var maxCapacity: Limit
    /** Whether an OutputStream is attached; only then does flush() empty the buffer. */
    var hasStream: bool
    /** Everything flush() has handed to the OutputStream so far. */
    ghost var flushed: seq<byte>
    /** The host's native byte order, in which Unsafe stores multi-byte values. */
    const order: ByteOrder

    ghost predicate Valid()
      reads this
    {
      buffer.Length == capacity && position <= capacity && maxCapacity.Admits(capacity)
    }

    /** The whole byte stream this output has produced: the flushed bytes, then the buffered ones. */
    ghost function Written(): seq<byte>
      reads this, buffer
      requires Valid()
    {
      flushed + buffer[.. position]
    }

    // -------------------------------------------------------------------------
    // Construction

    /** `new UnsafeOutput()`: no buffer yet. Until setBuffer is called nothing fits. */
    constructor Uninitialized(nativeOrder: ByteOrder)
      ensures Valid() && order == nativeOrder && Written() == []
      ensures capacity == 0 && maxCapacity == AtMost(0) && !hasStream
    {
      order := nativeOrder;
      buffer := new byte[0];
      position, capacity, maxCapacity := 0, 0, AtMost(0);
      hasStream := false;
      flushed := [];
    }

    /** `new UnsafeOutput(bufferSize)`, that is `this(bufferSize, bufferSize)`: the buffer never grows. */
    constructor WithSize(nativeOrder: ByteOrder, bufferSize: nat)
      ensures Valid() && order == nativeOrder && Written() == [] && fresh(buffer)
      ensures capacity == bufferSize && maxCapacity == AtMost(bufferSize) && !hasStream
    {
      order := nativeOrder;
      buffer := new byte[bufferSize];
      position, capacity, maxCapacity := 0, bufferSize, AtMost(bufferSize);
      hasStream := false;
      flushed := [];
    }

    /** `new UnsafeOutput(bufferSize, maxBufferSize)`: grows up to `maxBufferSize`, or without
        bound when it is -1. */
    constructor WithMaximum(nativeOrder: ByteOrder, bufferSize: nat, maxBufferSize: int)
      requires maxBufferSize >= -1 && LimitOf(maxBufferSize).Admits(bufferSize)
      ensures Valid() && order == nativeOrder && Written() == [] && fresh(buffer)
      ensures capacity == bufferSize && maxCapacity == LimitOf(maxBufferSize) && !hasStream
    {
      order := nativeOrder;
      buffer := new byte[bufferSize];
      position, capacity, maxCapacity := 0, bufferSize, LimitOf(maxBufferSize);
      hasStream := false;
      flushed := [];
    }

    /** `new UnsafeOutput(buffer)`, that is `this(buffer, buffer.length)`: writes go into the
        caller's array, which never grows. */
    constructor OverArray(nativeOrder: ByteOrder, storage: array<byte>)
      ensures Valid() && order == nativeOrder && Written() == []
      ensures buffer == storage && capacity == storage.Length && maxCapacity == AtMost(storage.Length)
      ensures !hasStream
    {
      order := nativeOrder;
      buffer := storage;
      position, capacity, maxCapacity := 0, storage.Length, AtMost(storage.Length);
      hasStream := false;
      flushed := [];
    }

    /** `new UnsafeOutput(buffer, maxBufferSize)`: writes go into the caller's array until a
        growth replaces it. */
    constructor OverArrayWithMaximum(nativeOrder: ByteOrder, storage: array<byte>, maxBufferSize: int)
      requires maxBufferSize >= -1 && LimitOf(maxBufferSize).Admits(storage.Length)
      ensures Valid() && order == nativeOrder && Written() == []
      ensures buffer == storage && capacity == storage.Length && maxCapacity == LimitOf(maxBufferSize)
      ensures !hasStream
    {
      order := nativeOrder;
      buffer := storage;
      position, capacity, maxCapacity := 0, storage.Length, LimitOf(maxBufferSize);
      hasStream := false;
      flushed := [];
    }

    /** `new UnsafeOutput(outputStream)`: a buffer of 4096 bytes that flush() empties into the stream. */
    constructor ToStream(nativeOrder: ByteOrder)
      ensures Valid() && order == nativeOrder && Written() == [] && fresh(buffer)
      ensures capacity == 4096 && maxCapacity == AtMost(4096) && hasStream
    {
      order := nativeOrder;
      buffer := new byte[4096];
      position, capacity, maxCapacity := 0, 4096, AtMost(4096);
      hasStream := true;
      flushed := [];
    }

    /** `new UnsafeOutput(outputStream, bufferSize)`. */
    constructor ToStreamWithSize(nativeOrder: ByteOrder, bufferSize: nat)
      ensures Valid() && order == nativeOrder && Written() == [] && fresh(buffer)
      ensures capacity == bufferSize && maxCapacity == AtMost(bufferSize) && hasStream
    {
      order := nativeOrder;
      buffer := new byte[bufferSize];
      position, capacity, maxCapacity := 0, bufferSize, AtMost(bufferSize);
      hasStream := true;
      flushed := [];
    }

    /** setBuffer(buffer, maxBufferSize): start over on the caller's array, without a stream. */
    method SetBuffer(storage: array<byte>, maxBufferSize: int)
      requires maxBufferSize >= -1 && LimitOf(maxBufferSize).Admits(storage.Length)
      modifies this
      ensures Valid() && Written() == []
      ensures buffer == storage && capacity == storage.Length && maxCapacity == LimitOf(maxBufferSize)
      ensures !hasStream
    {
      buffer := storage;
      position, capacity, maxCapacity := 0, storage.Length, LimitOf(maxBufferSize);
      hasStream := false;
      flushed := [];
    }

    // -------------------------------------------------------------------------
    // Capacity management (stand-ins for Output.flush and Output.require)

    /** flush(): with a stream attached, hand `buffer[..position]` over and start again at 0. */
    method Flush()
      requires Valid()
      modifies this`position, this`flushed
      ensures Valid() && Written() == old(Written())
      ensures hasStream ==> position == 0 && flushed == old(flushed) + old(buffer[.. position])
      ensures !hasStream ==> position == old(position) && flushed == old(flushed)
    {
      if hasStream {
        flushed := flushed + buffer[.. position];
        position := 0;
      }
    }

    /** require(n): make room for `n` more bytes at `position`. When they already fit nothing
        happens. Otherwise the buffer is flushed, and if that does not make room it is
        doubled until the bytes fit; the call fails when they cannot fit within the maximum.
        Either way the bytes written so far are kept, in the buffer or in the stream. */
    method Require(n: nat) returns (ok: bool)
      requires Valid()
      modifies this`buffer, this`position, this`capacity, this`flushed
      ensures Valid() && Written() == old(Written())
      ensures buffer == old(buffer) || fresh(buffer)
      ensures capacity >= old(capacity)
      ensures flushed == old(flushed) ==> position == old(position) && buffer[.. position] == old(buffer[.. position])
      ensures flushed != old(flushed) ==> hasStream && position == 0 && flushed == old(flushed) + old(buffer[.. position])
      ensures ok ==> position + n <= capacity
      ensures ok <==> maxCapacity.Admits(position + n)
      ensures hasStream ==> (ok <==> maxCapacity.Admits(n))
      ensures old(position) + n <= old(capacity) ==>
                ok && buffer == old(buffer) && position == old(position) && capacity == old(capacity) && flushed == old(flushed)
    {
      if position + n <= capacity {
        return true;
      }
      Flush();
      if position + n <= capacity {
        return true;
      }
      if !maxCapacity.Admits(position + n) {
        return false;
      }
      var newCapacity := Doubled(if capacity == 0 then 16 else capacity, maxCapacity);
      while newCapacity < position + n
        invariant capacity <= newCapacity && 0 < newCapacity && maxCapacity.Admits(newCapacity)
        decreases position + n - newCapacity
      {
        newCapacity := Doubled(newCapacity, maxCapacity);
      }
      var grown := new byte[newCapacity];
      forall i | 0 <= i < position {
        grown[i] := buffer[i];
      }
      assert grown[.. position] == buffer[.. position];
      buffer, capacity := grown, newCapacity;
      ok := true;
    }

    /** The store of unsafe.putInt, putLong, ..., putByte or copyMemory at `position`, followed
        by `position += |bytes|`: the bytes go to `buffer[position ..]` and nothing else changes. */
    method Put(bytes: seq<byte>)
      requires Valid() && position + |bytes| <= capacity
      modifies this`position, buffer
      ensures Valid() && Written() == old(Written()) + bytes
      ensures position == old(position) + |bytes|
      ensures buffer[.. position] == old(buffer[.. position]) + bytes
      ensures buffer[position ..] == old(buffer[..])[position ..]
      ensures |bytes| == 0 ==> buffer[..] == old(buffer[..])
    {
      ghost var before := buffer[.. position];
      forall i | 0 <= i < |bytes| {
        buffer[position + i] := bytes[i];
      }
      assert buffer[.. position + |bytes|] == before + bytes;
      position := position + |bytes|;
      assert flushed + (before + bytes) == (flushed + before) + bytes;
    }

    // -------------------------------------------------------------------------
    // Fixed-width writers

    /** The shared shape of writeInt ... writeBoolean: `require(|bytes|)`, then the store at
        `position` and `position += |bytes|`. Without a stream nothing is flushed and the write
        fails exactly when the bytes cannot fit within the maximum; with a stream the buffered
        bytes may be flushed first, and it fails exactly when `|bytes|` alone exceeds it. */
    method WriteScalar(bytes: seq<byte>) returns (ok: bool)
      requires Valid()
      modifies this`buffer, this`position, this`capacity, this`flushed, buffer
      ensures Valid() && (buffer == old(buffer) || fresh(buffer))
      ensures Written() == if ok then old(Written()) + bytes else old(Written())
      ensures !hasStream ==> flushed == old(flushed) && (ok <==> maxCapacity.Admits(old(position) + |bytes|))
      ensures hasStream ==> (ok <==> maxCapacity.Admits(|bytes|))
      ensures ok && flushed == old(flushed) ==> buffer[.. position] == old(buffer[.. position]) + bytes
      ensures !ok && flushed == old(flushed) ==> position == old(position) && buffer[.. position] == old(buffer[.. position])
      ensures flushed != old(flushed) ==>
                && flushed == old(flushed) + old(buffer[.. position])
                && position == (if ok then |bytes| else 0)
      ensures old(position) + |bytes| <= old(capacity) ==>
                && ok && buffer == old(buffer) && flushed == old(flushed)
                && buffer[position ..] == old(buffer[..])[position ..]
    {
      ok := Require(|bytes|);
      if ok {
        Put(bytes);
      }
    }

    /** writeInt: four bytes. */
    method WriteInt(value: JavaInt) returns (ok: bool)
      requires Valid()
      modifies this`buffer, this`position, this`capacity, this`flushed, buffer
      ensures Valid() && (buffer == old(buffer) || fresh(buffer))
      ensures Written() == if ok then old(Written()) + IntImage(order, value) else old(Written())
      ensures !hasStream ==> flushed == old(flushed) && (ok <==> maxCapacity.Admits(old(position) + 4))
      ensures hasStream ==> (ok <==> maxCapacity.Admits(4))
      ensures ok && flushed == old(flushed) ==> buffer[.. position] == old(buffer[.. position]) + IntImage(order, value)
      ensures !ok && flushed == old(flushed) ==> position == old(position) && buffer[.. position] == old(buffer[.. position])
      ensures flushed != old(flushed) ==>
                && flushed == old(flushed) + old(buffer[.. position])
                && position == (if ok then 4 else 0)
      ensures old(position) + 4 <= old(capacity) ==>
                && ok && buffer == old(buffer) && flushed == old(flushed)
                && buffer[position ..] == old(buffer[..])[position ..]
    {
      ok := WriteScalar(IntImage(order, value));
    }

    /** writeLong: eight bytes. */
    method WriteLong(value: JavaLong) returns (ok: bool)
      requires Valid()
      modifies this`buffer, this`position, this`capacity, this`flushed, buffer
      ensures Valid() && (buffer == old(buffer) || fresh(buffer))
      ensures Written() == if ok then old(Written()) + LongImage(order, value) else old(Written())
      ensures !hasStream ==> flushed == old(flushed) && (ok <==> maxCapacity.Admits(old(position) + 8))
      ensures hasStream ==> (ok <==> maxCapacity.Admits(8))
      ensures ok && flushed == old(flushed) ==> buffer[.. position] == old(buffer[.. position]) + LongImage(order, value)
      ensures !ok && flushed == old(flushed) ==> position == old(position) && buffer[.. position] == old(buffer[.. position])
      ensures flushed != old(flushed) ==>
                && flushed == old(flushed) + old(buffer[.. position])
                && position == (if ok then 8 else 0)
      ensures old(position) + 8 <= old(capacity) ==>
                && ok && buffer == old(buffer) && flushed == old(flushed)
                && buffer[position ..] == old(buffer[..])[position ..]
    {
      ok := WriteScalar(LongImage(order, value));
    }

    /** writeFloat: the four bytes of the bit pattern. */
    method WriteFloat(bits: FloatBits) returns (ok: bool)
      requires Valid()
      modifies this`buffer, this`position, this`capacity, this`flushed, buffer
      ensures Valid() && (buffer == old(buffer) || fresh(buffer))
      ensures Written() == if ok then old(Written()) + FloatImage(order, bits) else old(Written())
      ensures !hasStream ==> flushed == old(flushed) && (ok <==> maxCapacity.Admits(old(position) + 4))
      ensures hasStream ==> (ok <==> maxCapacity.Admits(4))
      ensures ok && flushed == old(flushed) ==> buffer[.. position] == old(buffer[.. position]) + FloatImage(order, bits)
      ensures !ok && flushed == old(flushed) ==> position == old(position) && buffer[.. position] == old(buffer[.. position])
      ensures flushed != old(flushed) ==>
                && flushed == old(flushed) + old(buffer[.. position])
                && position == (if ok then 4 else 0)
      ensures old(position) + 4 <= old(capacity) ==>
                && ok && buffer == old(buffer) && flushed == old(flushed)
                && buffer[position ..] == old(buffer[..])[position ..]
    {
      ok := WriteScalar(FloatImage(order, bits));
    }

    /** writeDouble: the eight bytes of the bit pattern. */
    method WriteDouble(bits: DoubleBits) returns (ok: bool)
      requires Valid()
      modifies this`buffer, this`position, this`capacity, this`flushed, buffer
      ensures Valid() && (buffer == old(buffer) || fresh(buffer))
      ensures Written() == if ok then old(Written()) + DoubleImage(order, bits) else old(Written())
      ensures !hasStream ==> flushed == old(flushed) && (ok <==> maxCapacity.Admits(old(position) + 8))
      ensures hasStream ==> (ok <==> maxCapacity.Admits(8))
      ensures ok && flushed == old(flushed) ==> buffer[.. position] == old(buffer[.. position]) + DoubleImage(order, bits)
      ensures !ok && flushed == old(flushed) ==> position == old(position) && buffer[.. position] == old(buffer[.. position])
      ensures flushed != old(flushed) ==>
                && flushed == old(flushed) + old(buffer[.. position])
                && position == (if ok then 8 else 0)
      ensures old(position) + 8 <= old(capacity) ==>
                && ok && buffer == old(buffer) && flushed == old(flushed)
                && buffer[position ..] == old(buffer[..])[position ..]
    {
      ok := WriteScalar(DoubleImage(order, bits));
    }

    /** writeShort: the two low-order bytes of `value`. */
    method WriteShort(value: JavaInt) returns (ok: bool)
      requires Valid()
      modifies this`buffer, this`position, this`capacity, this`flushed, buffer
      ensures Valid() && (buffer == old(buffer) || fresh(buffer))
      ensures Written() == if ok then old(Written()) + ShortImage(order, value) else old(Written())
      ensures !hasStream ==> flushed == old(flushed) && (ok <==> maxCapacity.Admits(old(position) + 2))
      ensures hasStream ==> (ok <==> maxCapacity.Admits(2))
      ensures ok && flushed == old(flushed) ==> buffer[.. position] == old(buffer[.. position]) + ShortImage(order, value)
      ensures !ok && flushed == old(flushed) ==> position == old(position) && buffer[.. position] == old(buffer[.. position])
      ensures flushed != old(flushed) ==>
                && flushed == old(flushed) + old(buffer[.. position])
                && position == (if ok then 2 else 0)
      ensures old(position) + 2 <= old(capacity) ==>
                && ok && buffer == old(buffer) && flushed == old(flushed)
                && buffer[position ..] == old(buffer[..])[position ..]
    {
      ok := WriteScalar(ShortImage(order, value));
    }

    /** writeChar: two bytes. */
    method WriteChar(value: JavaChar) returns (ok: bool)
      requires Valid()
      modifies this`buffer, this`position, this`capacity, this`flushed, buffer
      ensures Valid() && (buffer == old(buffer) || fresh(buffer))
      ensures Written() == if ok then old(Written()) + CharImage(order, value) else old(Written())
      ensures !hasStream ==> flushed == old(flushed) && (ok <==> maxCapacity.Admits(old(position) + 2))
      ensures hasStream ==> (ok <==> maxCapacity.Admits(2))
      ensures ok && flushed == old(flushed) ==> buffer[.. position] == old(buffer[.. position]) + CharImage(order, value)
      ensures !ok && flushed == old(flushed) ==> position == old(position) && buffer[.. position] == old(buffer[.. position])
      ensures flushed != old(flushed) ==>
                && flushed == old(flushed) + old(buffer[.. position])
                && position == (if ok then 2 else 0)
      ensures old(position) + 2 <= old(capacity) ==>
                && ok && buffer == old(buffer) && flushed == old(flushed)
                && buffer[position ..] == old(buffer[..])[position ..]
    {
      ok := WriteScalar(CharImage(order, value));
    }

    /** writeBoolean: one byte, 1 for true and 0 for false. */
    method WriteBoolean(value: bool) returns (ok: bool)
      requires Valid()
      modifies this`buffer, this`position, this`capacity, this`flushed, buffer
      ensures Valid() && (buffer == old(buffer) || fresh(buffer))
      ensures Written() == if ok then old(Written()) + [if value then 1 else 0] else old(Written())
      ensures !hasStream ==> flushed == old(flushed) && (ok <==> maxCapacity.Admits(old(position) + 1))
      ensures hasStream ==> (ok <==> maxCapacity.Admits(1))
      ensures ok && flushed == old(flushed) ==> buffer[.. position] == old(buffer[.. position]) + [if value then 1 else 0]
      ensures !ok && flushed == old(flushed) ==> position == old(position) && buffer[.. position] == old(buffer[.. position])
      ensures flushed != old(flushed) ==>
                && flushed == old(flushed) + old(buffer[.. position])
                && position == (if ok then 1 else 0)
      ensures old(position) + 1 <= old(capacity) ==>
                && ok && buffer == old(buffer) && flushed == old(flushed)
                && buffer[position ..] == old(buffer[..])[position ..]
    {
      assert BooleanImage(value) == [if value then 1 else 0];
      ok := WriteScalar(BooleanImage(value));
    }

    // -------------------------------------------------------------------------
    // Bulk copy

    /** writeBytes(from, offset, count): copy `from[offset .. offset + count]` into the buffer,
        as much as fits at a time. The first pass copies `min(capacity - position, count)`
        bytes; while bytes remain, CopyRest makes the later passes. The bytes arrive in order
        however often the buffer grows or is flushed, and a failing require ends the copy
        with the chunks copied so far left in place. Without a stream the copy fails exactly
        when the bytes cannot fit within the maximum; with one, when they do not fit at once
        and the maximum does not admit even one byte. */
    method WriteBytesFrom(from: seq<byte>, offset: nat, count: nat) returns (ok: bool)
      requires Valid() && offset + count <= |from|
      modifies this`buffer, this`position, this`capacity, this`flushed, buffer
      ensures Valid() && (buffer == old(buffer) || fresh(buffer))
      ensures old(flushed) <= flushed
      ensures ok ==> Written() == old(Written()) + from[offset .. offset + count]
      ensures !ok ==> PartlyAppended(old(Written()), Written(), from[offset .. offset + count])
      ensures !hasStream ==> flushed == old(flushed) && (ok <==> maxCapacity.Admits(old(position) + count))
      ensures hasStream ==> (ok <==> (count <= old(capacity) - old(position) || maxCapacity.Admits(1)))
      ensures ok && flushed == old(flushed) ==> buffer[.. position] == old(buffer[.. position]) + from[offset .. offset + count]
      ensures count == 0 ==> ok && buffer == old(buffer) && position == old(position) && flushed == old(flushed)
      ensures count == 0 ==> buffer[..] == old(buffer[..])
      ensures count <= old(capacity) - old(position) ==>
                && ok && buffer == old(buffer) && flushed == old(flushed)
                && buffer[position ..] == old(buffer[..])[position ..]
    {
      ghost var buffered := buffer[.. position];
      var copyCount := Min(capacity - position, count);
      Put(from[offset .. offset + copyCount]);
      ok := true;
      if copyCount < count {
        ok := CopyRest(from, offset, offset + copyCount, count - copyCount, old(Written()));
      }
      if ok && flushed == old(flushed) {
        BufferedAfterSamePrefix(flushed, buffer[.. position], buffered, from[offset .. offset + count]);
      }
    }

    /** The later passes of the bulk copy, once `from[off .. at]` has been appended to
        `start`: until the `count` bytes from `at` are copied too, or a require fails. Each
        pass copies a non-empty chunk, so the loop ends. */
    method CopyRest(from: seq<byte>, off: nat, at: nat, count: nat, ghost start: seq<byte>) returns (ok: bool)
      requires Valid() && off <= at && at + count <= |from|
      requires Written() == start + from[off .. at]
      modifies this`buffer, this`position, this`capacity, this`flushed, buffer
      ensures Valid() && (buffer == old(buffer) || fresh(buffer))
      ensures old(flushed) <= flushed
      ensures ok ==> Written() == start + from[off .. at + count]
      ensures !ok ==> PartlyAppended(start, Written(), from[off .. at + count])
      ensures !hasStream ==> flushed == old(flushed) && (ok <==> maxCapacity.Admits(old(position) + count))
      ensures hasStream ==> (ok <==> (count == 0 || maxCapacity.Admits(1)))
    {
      var next: nat, remaining: nat := at, count;
      ok := true;
      while remaining > 0
        invariant ok && Valid() && (buffer == old(buffer) || fresh(buffer))
        invariant old(flushed) <= flushed
        invariant at <= next && next + remaining == at + count
        invariant Written() == start + from[off .. next]
        invariant !hasStream ==> flushed == old(flushed) && position == old(position) + (next - at)
        invariant hasStream && at < next ==> maxCapacity.Admits(1)
        decreases remaining
      {
        var copyCount;
        copyCount, ok := CopyPass(from, off, next, remaining, start);
        if !ok {
          return;
        }
        next, remaining := next + copyCount, remaining - copyCount;
      }
    }

    /** A later pass of the bulk copy, once `from[off .. at]` has been appended to `start`:
        `copyCount = Chunk(capacity, count)`, `require(copyCount)`, then the chunk
        `from[at .. at + copyCount]` is copied. When require fails nothing is written, so
        `start` is followed by a proper prefix of `from[off .. at + count]`; otherwise a
        non-empty chunk of at most `count` bytes is appended. */
    method CopyPass(from: seq<byte>, off: nat, at: nat, count: nat, ghost start: seq<byte>) returns (copyCount: nat, ok: bool)
      requires Valid() && off <= at && count > 0 && at + count <= |from|
      requires Written() == start + from[off .. at]
      modifies this`buffer, this`position, this`capacity, this`flushed, buffer
      ensures Valid() && (buffer == old(buffer) || fresh(buffer))
      ensures old(flushed) <= flushed
      ensures copyCount == Chunk(old(capacity), count)
      ensures !ok ==> Written() == old(Written()) && PartlyAppended(start, Written(), from[off .. at + count])
      ensures ok ==> 0 < copyCount <= count && Written() == start + from[off .. at + copyCount]
      ensures !hasStream ==>
                && flushed == old(flushed)
                && (ok <==> maxCapacity.Admits(old(position) + copyCount))
                && (ok ==> position == old(position) + copyCount)
                && (!ok ==> !maxCapacity.Admits(old(position) + count))
      ensures hasStream ==> (ok <==> maxCapacity.Admits(1))
    {
      ghost var before := Written();
      copyCount := Chunk(capacity, count);
      ok := Require(copyCount);
      if ok {
        Put(from[at .. at + copyCount]);
        AppendedSlices(start, before, Written(), from, off, at, at + copyCount);
      } else {
        PrefixIsPartlyAppended(start, Written(), from, off, at, at + count);
      }
    }

    /** writeBytes(byte[] array, int offset, int count). */
    method WriteBytes(bytes: seq<byte>, offset: nat, count: nat) returns (ok: bool)
      requires Valid() && offset + count <= |bytes|
      modifies this`buffer, this`position, this`capacity, this`flushed, buffer
      ensures Valid() && (buffer == old(buffer) || fresh(buffer))
      ensures old(flushed) <= flushed
      ensures ok ==> Written() == old(Written()) + bytes[offset .. offset + count]
      ensures !ok ==> PartlyAppended(old(Written()), Written(), bytes[offset .. offset + count])
      ensures !hasStream ==> flushed == old(flushed) && (ok <==> maxCapacity.Admits(old(position) + count))
      ensures hasStream ==> (ok <==> (count <= old(capacity) - old(position) || maxCapacity.Admits(1)))
      ensures ok && flushed == old(flushed) ==> buffer[.. position] == old(buffer[.. position]) + bytes[offset .. offset + count]
      ensures count == 0 ==> ok && buffer == old(buffer) && position == old(position) && flushed == old(flushed)
      ensures count == 0 ==> buffer[..] == old(buffer[..])
      ensures count <= old(capacity) - old(position) ==>
                && ok && buffer == old(buffer) && flushed == old(flushed)
                && buffer[position ..] == old(buffer[..])[position ..]
    {
      ok := WriteBytesFrom(bytes, offset, count);
    }

    /** Hand a typed array writer's request to the bulk copy. */
    method WriteCopy(c: Copy) returns (ok: bool)
      requires Valid() && c.InBounds()
      modifies this`buffer, this`position, this`capacity, this`flushed, buffer
      ensures Valid() && (buffer == old(buffer) || fresh(buffer))
      ensures old(flushed) <= flushed
      ensures ok ==> Written() == old(Written()) + c.Bytes()
      ensures !ok ==> PartlyAppended(old(Written()), Written(), c.Bytes())
      ensures !hasStream ==> flushed == old(flushed) && (ok <==> maxCapacity.Admits(old(position) + c.count))
      ensures hasStream ==> (ok <==> (c.count <= old(capacity) - old(position) || maxCapacity.Admits(1)))
      ensures ok && flushed == old(flushed) ==> buffer[.. position] == old(buffer[.. position]) + c.Bytes()
      ensures c.count <= old(capacity) - old(position) ==>
                && ok && buffer == old(buffer) && flushed == old(flushed)
                && buffer[position ..] == old(buffer[..])[position ..]
    {
      ok := WriteBytesFrom(c.from, c.offset, c.count);
    }

    /** writeInts: the image of every element, in order. */
    method WriteInts(elements: seq<JavaInt>) returns (ok: bool)
      requires Valid() && |elements| < 0x2000_0000
      modifies this`buffer, this`position, this`capacity, this`flushed, buffer
      ensures Valid() && (buffer == old(buffer) || fresh(buffer))
      ensures old(flushed) <= flushed
      ensures ok ==> Written() == old(Written()) + IntsImage(order, elements)
      ensures !ok ==> PartlyAppended(old(Written()), Written(), IntsImage(order, elements))
      ensures !hasStream ==> flushed == old(flushed) && (ok <==> maxCapacity.Admits(old(position) + 4 * |elements|))
      ensures hasStream ==> (ok <==> (4 * |elements| <= old(capacity) - old(position) || maxCapacity.Admits(1)))
      ensures ok && flushed == old(flushed) ==> buffer[.. position] == old(buffer[.. position]) + IntsImage(order, elements)
      ensures 4 * |elements| <= old(capacity) - old(position) ==>
                && ok && buffer == old(buffer) && flushed == old(flushed)
                && buffer[position ..] == old(buffer[..])[position ..]
    {
      ok := WriteCopy(IntsCopy(order, elements));
    }

    /** writeLongs. */
    method WriteLongs(elements: seq<JavaLong>) returns (ok: bool)
      requires Valid() && |elements| < 0x1000_0000
      modifies this`buffer, this`position, this`capacity, this`flushed, buffer
      ensures Valid() && (buffer == old(buffer) || fresh(buffer))
      ensures old(flushed) <= flushed
      ensures ok ==> Written() == old(Written()) + LongsImage(order, elements)
      ensures !ok ==> PartlyAppended(old(Written()), Written(), LongsImage(order, elements))
      ensures !hasStream ==> flushed == old(flushed) && (ok <==> maxCapacity.Admits(old(position) + 8 * |elements|))
      ensures hasStream ==> (ok <==> (8 * |elements| <= old(capacity) - old(position) || maxCapacity.Admits(1)))
      ensures ok && flushed == old(flushed) ==> buffer[.. position] == old(buffer[.. position]) + LongsImage(order, elements)
      ensures 8 * |elements| <= old(capacity) - old(position) ==>
                && ok && buffer == old(buffer) && flushed == old(flushed)
                && buffer[position ..] == old(buffer[..])[position ..]
    {
      ok := WriteCopy(LongsCopy(order, elements));
    }

    /** writeFloats. */
    method WriteFloats(elements: seq<FloatBits>) returns (ok: bool)
      requires Valid() && |elements| < 0x2000_0000
      modifies this`buffer, this`position, this`capacity, this`flushed, buffer
      ensures Valid() && (buffer == old(buffer) || fresh(buffer))
      ensures old(flushed) <= flushed
      ensures ok ==> Written() == old(Written()) + FloatsImage(order, elements)
      ensures !ok ==> PartlyAppended(old(Written()), Written(), FloatsImage(order, elements))
      ensures !hasStream ==> flushed == old(flushed) && (ok <==> maxCapacity.Admits(old(position) + 4 * |elements|))
      ensures hasStream ==> (ok <==> (4 * |elements| <= old(capacity) - old(position) || maxCapacity.Admits(1)))
      ensures ok && flushed == old(flushed) ==> buffer[.. position] == old(buffer[.. position]) + FloatsImage(order, elements)
      ensures 4 * |elements| <= old(capacity) - old(position) ==>
                && ok && buffer == old(buffer) && flushed == old(flushed)
                && buffer[position ..] == old(buffer[..])[position ..]
    {
      ok := WriteCopy(FloatsCopy(order, elements));
    }

    /** writeDoubles. */
    method WriteDoubles(elements: seq<DoubleBits>) returns (ok: bool)
      requires Valid() && |elements| < 0x1000_0000
      modifies this`buffer, this`position, this`capacity, this`flushed, buffer
      ensures Valid() && (buffer == old(buffer) || fresh(buffer))
      ensures old(flushed) <= flushed
      ensures ok ==> Written() == old(Written()) + DoublesImage(order, elements)
      ensures !ok ==> PartlyAppended(old(Written()), Written(), DoublesImage(order, elements))
      ensures !hasStream ==> flushed == old(flushed) && (ok <==> maxCapacity.Admits(old(position) + 8 * |elements|))
      ensures hasStream ==> (ok <==> (8 * |elements| <= old(capacity) - old(position) || maxCapacity.Admits(1)))
      ensures ok && flushed == old(flushed) ==> buffer[.. position] == old(buffer[.. position]) + DoublesImage(order, elements)
      ensures 8 * |elements| <= old(capacity) - old(position) ==>
                && ok && buffer == old(buffer) && flushed == old(flushed)
                && buffer[position ..] == old(buffer[..])[position ..]
    {
      ok := WriteCopy(DoublesCopy(order, elements));
    }

    /** writeShorts. */
    method WriteShorts(elements: seq<JavaShort>) returns (ok: bool)
      requires Valid() && |elements| < 0x4000_0000
      modifies this`buffer, this`position, this`capacity, this`flushed, buffer
      ensures Valid() && (buffer == old(buffer) || fresh(buffer))
      ensures old(flushed) <= flushed
      ensures ok ==> Written() == old(Written()) + ShortsImage(order, elements)
      ensures !ok ==> PartlyAppended(old(Written()), Written(), ShortsImage(order, elements))
      ensures !hasStream ==> flushed == old(flushed) && (ok <==> maxCapacity.Admits(old(position) + 2 * |elements|))
      ensures hasStream ==> (ok <==> (2 * |elements| <= old(capacity) - old(position) || maxCapacity.Admits(1)))
      ensures ok && flushed == old(flushed) ==> buffer[.. position] == old(buffer[.. position]) + ShortsImage(order, elements)
      ensures 2 * |elements| <= old(capacity) - old(position) ==>
                && ok && buffer == old(buffer) && flushed == old(flushed)
                && buffer[position ..] == old(buffer[..])[position ..]
    {
      ok := WriteCopy(ShortsCopy(order, elements));
    }

    /** writeChars. */
    method WriteChars(elements: seq<JavaChar>) returns (ok: bool)
      requires Valid() && |elements| < 0x4000_0000
      modifies this`buffer, this`position, this`capacity, this`flushed, buffer
      ensures Valid() && (buffer == old(buffer) || fresh(buffer))
      ensures old(flushed) <= flushed
      ensures ok ==> Written() == old(Written()) + CharsImage(order, elements)
      ensures !ok ==> PartlyAppended(old(Written()), Written(), CharsImage(order, elements))
      ensures !hasStream ==> flushed == old(flushed) && (ok <==> maxCapacity.Admits(old(position) + 2 * |elements|))
      ensures hasStream ==> (ok <==> (2 * |elements| <= old(capacity) - old(position) || maxCapacity.Admits(1)))
      ensures ok && flushed == old(flushed) ==> buffer[.. position] == old(buffer[.. position]) + CharsImage(order, elements)
      ensures 2 * |elements| <= old(capacity) - old(position) ==>
                && ok && buffer == old(buffer) && flushed == old(flushed)
                && buffer[position ..] == old(buffer[..])[position ..]
    {
      ok := WriteCopy(CharsCopy(order, elements));
    }

    /** writeBooleans(array, offset, count) as written: `offset` and `count` play no part, and
        the copy takes the array's bytes and then as many from the memory after it. */
    method WriteBooleansAsWritten(elements: seq<bool>, offset: int, count: int, adjacent: seq<byte>) returns (ok: bool)
      requires Valid() && |elements| < 0x4000_0000 && |elements| <= |adjacent|
      modifies this`buffer, this`position, this`capacity, this`flushed, buffer
      ensures Valid() && (buffer == old(buffer) || fresh(buffer))
      ensures old(flushed) <= flushed
      ensures ok ==> Written() == old(Written()) + (BooleansImage(elements) + adjacent[.. |elements|])
      ensures !ok ==> PartlyAppended(old(Written()), Written(), (BooleansImage(elements) + adjacent[.. |elements|]))
      ensures !hasStream ==> flushed == old(flushed) && (ok <==> maxCapacity.Admits(old(position) + 2 * |elements|))
      ensures hasStream ==> (ok <==> (2 * |elements| <= old(capacity) - old(position) || maxCapacity.Admits(1)))
      ensures ok && flushed == old(flushed) ==> buffer[.. position] == old(buffer[.. position]) + (BooleansImage(elements) + adjacent[.. |elements|])
      ensures 2 * |elements| <= old(capacity) - old(position) ==>
                && ok && buffer == old(buffer) && flushed == old(flushed)
                && buffer[position ..] == old(buffer[..])[position ..]
    {
      ok := WriteCopy(BooleansCopyAsWritten(elements, offset, count, adjacent));
    }

    /** writeBooleans(array, offset, count) as evidently intended: one byte for each of the
        `count` elements from `offset`. */
    method WriteBooleans(elements: seq<bool>, offset: nat, count: nat) returns (ok: bool)
      requires Valid() && offset + count <= |elements|
      modifies this`buffer, this`position, this`capacity, this`flushed, buffer
      ensures Valid() && (buffer == old(buffer) || fresh(buffer))
      ensures old(flushed) <= flushed
      ensures ok ==> Written() == old(Written()) + BooleansImage(elements[offset .. offset + count])
      ensures !ok ==> PartlyAppended(old(Written()), Written(), BooleansImage(elements[offset .. offset + count]))
      ensures !hasStream ==> flushed == old(flushed) && (ok <==> maxCapacity.Admits(old(position) + count))
      ensures hasStream ==> (ok <==> (count <= old(capacity) - old(position) || maxCapacity.Admits(1)))
      ensures ok && flushed == old(flushed) ==> buffer[.. position] == old(buffer[.. position]) + BooleansImage(elements[offset .. offset + count])
      ensures count <= old(capacity) - old(position) ==>
                && ok && buffer == old(buffer) && flushed == old(flushed)
                && buffer[position ..] == old(buffer[..])[position ..]
    {
      ok := WriteCopy(BooleansCopy(elements, offset, count));
    }

    /** A later pass of the bulk copy as written, on a buffer of capacity 0 with bytes left to
        copy: the chunk is `min(capacity, count) == 0`, require(0) returns at once, and the
        copy moves nothing, so the state the next pass starts from is the one this pass
        started from and the loop never ends. */
    method StalledPassAsWritten(from: seq<byte>, offset: nat, count: nat) returns (copied: nat)
      requires Valid() && capacity == 0 && 0 < count && offset + count <= |from|
      modifies this`buffer, this`position, this`capacity, this`flushed, buffer
      ensures copied == 0
      ensures Valid() && capacity == 0 && buffer == old(buffer) && position == old(position) && flushed == old(flushed)
      ensures buffer[..] == old(buffer[..])
    {
      var copyCount := ChunkAsWritten(capacity, count);
      var ok := Require(copyCount);
      Put(from[offset .. offset + copyCount]);
      copied := copyCount;
    }
  }
}
