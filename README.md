# UnsafeOutput — a verified model

Kryo's `UnsafeOutput` is an `Output` over a `byte[]` buffer. It writes primitive values
and primitive arrays with `sun.misc.Unsafe`, so every multi-byte value lands in the
buffer in the host's native byte order. This project models in Dafny:

- the buffer state it works on (`buffer`, `position`, `capacity`, the maximum capacity,
  and an optional OutputStream);
- its seven constructors;
- the seven scalar writers;
- the seven typed array writers and `writeBytes(byte[], int, int)`;
- the bulk copy loop `writeBytes(Object from, long offset, int count)`.

It then proves what those operations promise.

The model has three modules:

- `ByteImages` (`byte_images.dfy`) gives the byte image of each Java primitive and each
  primitive array in a given byte order. Round trips are proved there:
  `Decode(order, Encode(order, n, w)) == n`, and every byte pattern is the encoding of the
  number it decodes to. Two's complement is proved too: the image of an int or a long
  reads back as the same signed value.
- `CopyRequests` (`copy_requests.dfy`) describes what each typed array writer passes to
  the bulk copy: the source object's memory as a byte sequence, an offset and a count.
  The count is computed with Java's 32-bit `<<`.
- `UnsafeOutputs` (`unsafe_output.dfy`) holds the class `UnsafeOutput`. Its fields are the
  ones the class inherits from `Output`. Its writers are methods that change those fields
  in place.

The byte stream an output has produced is the ghost function `Written()`. It is the bytes
already handed to the stream (the ghost field `flushed`) followed by
`buffer[..position]`. Every writer is specified against `Written()`:

- on success it appends exactly the value's image;
- a scalar writer that fails appends nothing;
- a bulk copy that fails part-way has appended a proper prefix of its bytes
  (`PartlyAppended`).

Every writer also states when it succeeds. Without a stream nothing is flushed, and the
write fails exactly when `position` plus the number of bytes exceeds the maximum. With a
stream, a scalar write fails exactly when its width alone exceeds the maximum. A bulk copy
with a stream fails exactly when the bytes do not fit in the room left and the maximum
does not admit even one byte.

Every writer keeps the same buffer array or replaces it by a fresh one, and only ever
appends to the bytes already handed to the stream. On success, with
nothing flushed, every writer states the buffer-level outcome:
`buffer[..position] == old(buffer[..position]) + image`. So the earlier bytes are
unchanged and `position` advanced by exactly the number of bytes. When the bytes already
fit in the room left, every writer succeeds without flushing, keeps the same array, and
leaves the bytes after the new `position` unchanged. A scalar writer also states the
state after a flush: the old buffered bytes are in the stream and `position` is the width
(or 0 when the write failed).

`Output`'s `require`, `flush` and `setBuffer` are not in this model's source. They become
methods whose contracts follow the constructor documentation
(`UnsafeOutput.java:19-29`):

- the bytes already written are kept, in the buffer or in the stream;
- a flush resets `position` to 0;
- on success there is room for the requested bytes;
- the call fails exactly when the bytes cannot fit within the maximum, where -1 means no
  maximum.

Their bodies are stand-ins that meet these contracts. `require` flushes first, then
doubles the buffer (starting from 16 when it is empty), capped at the maximum.

A thrown `KryoException` is modelled as an `ok == false` result.

## Model

| member | source | states |
|---|---|---|
| ByteImages.Encode | src/com/esotericsoftware/kryo/unsafe/UnsafeOutput.java:11-12 | the `width`-byte image of `n` in the given byte order has `width` bytes and decodes back to `n` |
| ByteImages.EncodeOfDecode | src/com/esotericsoftware/kryo/unsafe/UnsafeOutput.java:11-12 | every byte pattern is the image of the number it decodes to, so images of different values differ |
| ByteImages.LeValueOfBytes | src/com/esotericsoftware/kryo/unsafe/UnsafeOutput.java:11-12 | reading the little-endian bytes of `n < 256^width` gives back `n` |
| ByteImages.LeBytesOfValue | src/com/esotericsoftware/kryo/unsafe/UnsafeOutput.java:11-12 | writing the value of a byte sequence in as many bytes gives back the sequence |
| ByteImages.ReverseReverse | src/com/esotericsoftware/kryo/unsafe/UnsafeOutput.java:11-12 | reversing a byte sequence twice gives back the sequence (the big-endian case of Encode relies on it) |
| ByteImages.DecodeSigned | src/com/esotericsoftware/kryo/unsafe/UnsafeOutput.java:56-66 | reading `width` bytes as a signed number always gives a value in the signed range of that width |
| ByteImages.Unsigned | src/com/esotericsoftware/kryo/unsafe/UnsafeOutput.java:56-66 | the two's-complement pattern of a signed value fits in `width` bytes and reads back as that value |
| ByteImages.SignedImage | src/com/esotericsoftware/kryo/unsafe/UnsafeOutput.java:56-66 | the stored bytes of a signed value have the width and decode, signed, to the value |
| ByteImages.IntImage | src/com/esotericsoftware/kryo/unsafe/UnsafeOutput.java:56-60 | putInt stores four bytes that read back, signed, as the int |
| ByteImages.LongImage | src/com/esotericsoftware/kryo/unsafe/UnsafeOutput.java:62-66 | putLong stores eight bytes that read back, signed, as the long |
| ByteImages.FloatImage | src/com/esotericsoftware/kryo/unsafe/UnsafeOutput.java:68-72 | putFloat stores the four bytes of the bit pattern, which read back as that pattern |
| ByteImages.DoubleImage | src/com/esotericsoftware/kryo/unsafe/UnsafeOutput.java:74-78 | putDouble stores the eight bytes of the bit pattern, which read back as that pattern |
| ByteImages.ShortImage | src/com/esotericsoftware/kryo/unsafe/UnsafeOutput.java:80-84 | `(short) value` keeps two bytes holding `value mod 2^16`, and a value in the range of a short reads back unchanged |
| ByteImages.CharImage | src/com/esotericsoftware/kryo/unsafe/UnsafeOutput.java:86-90 | putChar stores two bytes that read back as the char |
| ByteImages.BooleanImage | src/com/esotericsoftware/kryo/unsafe/UnsafeOutput.java:94 | putByte of `value ? 1 : 0` stores one byte, which is 1 exactly when the value is true and 0 otherwise |
| ByteImages.FlattenUniform | src/com/esotericsoftware/kryo/unsafe/UnsafeOutput.java:98-120 | images of equal width laid back to back: chunk `i` sits at `width * i` and the total is `width` times the count |
| ByteImages.IntsImage | src/com/esotericsoftware/kryo/unsafe/UnsafeOutput.java:98-100 | an int[] occupies `4 * length` bytes with element `i`'s image at bytes `4i .. 4i+4` |
| ByteImages.LongsImage | src/com/esotericsoftware/kryo/unsafe/UnsafeOutput.java:102-104 | a long[] occupies `8 * length` bytes with element `i`'s image at bytes `8i .. 8i+8` |
| ByteImages.FloatsImage | src/com/esotericsoftware/kryo/unsafe/UnsafeOutput.java:106-108 | a float[] occupies `4 * length` bytes with element `i`'s bit pattern at bytes `4i .. 4i+4` |
| ByteImages.DoublesImage | src/com/esotericsoftware/kryo/unsafe/UnsafeOutput.java:110-112 | a double[] occupies `8 * length` bytes with element `i`'s bit pattern at bytes `8i .. 8i+8` |
| ByteImages.ShortsImage | src/com/esotericsoftware/kryo/unsafe/UnsafeOutput.java:114-116 | a short[] occupies `2 * length` bytes with element `i`'s image at bytes `2i .. 2i+2` |
| ByteImages.CharsImage | src/com/esotericsoftware/kryo/unsafe/UnsafeOutput.java:118-120 | a char[] occupies `2 * length` bytes with element `i`'s image at bytes `2i .. 2i+2` |
| ByteImages.BooleansImage | src/com/esotericsoftware/kryo/unsafe/UnsafeOutput.java:122-124 | a boolean[] occupies one byte per element, each as writeBoolean stores it |
| ByteImages.BooleansImageSlice | src/com/esotericsoftware/kryo/unsafe/UnsafeOutput.java:122 | the bytes of elements `offset .. offset+count` of a boolean[] are the image of that slice |
| CopyRequests.ShiftLeft | src/com/esotericsoftware/kryo/unsafe/UnsafeOutput.java:99 | Java's `x << d` on an int is `x * 2^d` modulo 2^32, and is exactly that product when it fits in an int |
| CopyRequests.IntsCopy | src/com/esotericsoftware/kryo/unsafe/UnsafeOutput.java:98-100 | writeInts asks for `4 * length` bytes from the array's first element, which are the array's image |
| CopyRequests.LongsCopy | src/com/esotericsoftware/kryo/unsafe/UnsafeOutput.java:102-104 | writeLongs asks for `8 * length` bytes from the array's first element, which are the array's image |
| CopyRequests.FloatsCopy | src/com/esotericsoftware/kryo/unsafe/UnsafeOutput.java:106-108 | writeFloats asks for `4 * length` bytes from the array's first element, which are the array's image |
| CopyRequests.DoublesCopy | src/com/esotericsoftware/kryo/unsafe/UnsafeOutput.java:110-112 | writeDoubles asks for `8 * length` bytes from the array's first element, which are the array's image |
| CopyRequests.ShortsCopy | src/com/esotericsoftware/kryo/unsafe/UnsafeOutput.java:114-116 | writeShorts asks for `2 * length` bytes from the array's first element, which are the array's image |
| CopyRequests.CharsCopy | src/com/esotericsoftware/kryo/unsafe/UnsafeOutput.java:118-120 | writeChars asks for `2 * length` bytes from the array's first element, which are the array's image |
| CopyRequests.BooleansCopyAsWritten | src/com/esotericsoftware/kryo/unsafe/UnsafeOutput.java:122-124 | writeBooleans as written asks for `2 * length` bytes from the first element, whatever `offset` and `count` are: the array's bytes, then as many from the memory after it |
| CopyRequests.BooleansCopy | src/com/esotericsoftware/kryo/unsafe/UnsafeOutput.java:122 | writeBooleans as intended asks for `count` bytes from element `offset`, the image of that slice |
| CopyRequests.BooleansAsWrittenOverreads | src/com/esotericsoftware/kryo/unsafe/UnsafeOutput.java:122-124 | for `[false, true]` with offset 1 and count 1, the copy as written takes four bytes, two of them from beyond the array, where the one byte `[1]` is meant |
| UnsafeOutputs.LimitOf | src/com/esotericsoftware/kryo/unsafe/UnsafeOutput.java:28-29 | `maxBufferSize` -1 means no maximum; any other value admits exactly the sizes up to it |
| UnsafeOutputs.Doubled | src/com/esotericsoftware/kryo/unsafe/UnsafeOutput.java:28-29 | a doubling step never passes the maximum and never shrinks an admitted capacity; it stalls only at the maximum |
| UnsafeOutputs.ChunkAsWritten | src/com/esotericsoftware/kryo/unsafe/UnsafeOutput.java:139 | `min(capacity, count)` is at most both, and with bytes left it is 0 exactly when the capacity is 0 |
| UnsafeOutputs.Chunk | src/com/esotericsoftware/kryo/unsafe/UnsafeOutput.java:139 | the corrected chunk is at most `count`, positive while bytes remain, and equal to the source's `min(capacity, count)` whenever the capacity is positive |
| UnsafeOutputs.PrefixIsPartlyAppended | src/com/esotericsoftware/kryo/unsafe/UnsafeOutput.java:140 | a sequence fact the proof of the bulk copy uses when a require fails: a stream extended by a slice that stops before the end of the bytes is extended by a proper prefix of them |
| UnsafeOutputs.AppendedSlices | src/com/esotericsoftware/kryo/unsafe/UnsafeOutput.java:134-138 | a sequence fact the proof of each later pass uses: two adjacent slices of the source, appended one after the other, are the slice that spans both |
| UnsafeOutputs.BufferedAfterSamePrefix | src/com/esotericsoftware/kryo/unsafe/UnsafeOutput.java:131-142 | a sequence fact the proof of the no-flush outcome uses: with the same flushed prefix, a common prefix cancels, so the buffered bytes are the old ones followed by the appended ones |
| UnsafeOutputs.UnsafeOutput.Uninitialized | src/com/esotericsoftware/kryo/unsafe/UnsafeOutput.java:15-17 | an output with no bytes, capacity 0 and no stream, which holds nothing until setBuffer is called |
| UnsafeOutputs.UnsafeOutput.WithSize | src/com/esotericsoftware/kryo/unsafe/UnsafeOutput.java:19-24 | a fresh buffer of `bufferSize` bytes whose maximum is `bufferSize` |
| UnsafeOutputs.UnsafeOutput.WithMaximum | src/com/esotericsoftware/kryo/unsafe/UnsafeOutput.java:26-32 | a fresh buffer of `bufferSize` bytes that may grow up to `maxBufferSize`, or without bound for -1 |
| UnsafeOutputs.UnsafeOutput.OverArray | src/com/esotericsoftware/kryo/unsafe/UnsafeOutput.java:34-38 | writes go into the caller's array, whose length is also the maximum |
| UnsafeOutputs.UnsafeOutput.OverArrayWithMaximum | src/com/esotericsoftware/kryo/unsafe/UnsafeOutput.java:40-44 | writes go into the caller's array with the given maximum |
| UnsafeOutputs.UnsafeOutput.ToStream | src/com/esotericsoftware/kryo/unsafe/UnsafeOutput.java:46-49 | a fresh 4096-byte buffer in front of a stream |
| UnsafeOutputs.UnsafeOutput.ToStreamWithSize | src/com/esotericsoftware/kryo/unsafe/UnsafeOutput.java:51-54 | a fresh buffer of the given size in front of a stream |
| UnsafeOutputs.UnsafeOutput.SetBuffer | src/com/esotericsoftware/kryo/unsafe/UnsafeOutput.java:40-44 | start over on the caller's array with the given maximum and no bytes written |
| UnsafeOutputs.UnsafeOutput.Flush | src/com/esotericsoftware/kryo/unsafe/UnsafeOutput.java:19-21 | with a stream, the buffered bytes move to the stream and `position` becomes 0; the byte stream is unchanged |
| UnsafeOutputs.UnsafeOutput.Require | src/com/esotericsoftware/kryo/unsafe/UnsafeOutput.java:19-29 | the byte stream is kept; with no flush the buffered bytes stay in place; after a flush `position` is 0; on success `n` bytes fit; it fails exactly when they cannot fit within the maximum; when they already fit nothing changes |
| UnsafeOutputs.UnsafeOutput.Put | src/com/esotericsoftware/kryo/unsafe/UnsafeOutput.java:58-59 | a store at `position` that fits: the bytes follow the buffered ones, `position` advances by their number, and the bytes after them are unchanged |
| UnsafeOutputs.UnsafeOutput.WriteScalar | src/com/esotericsoftware/kryo/unsafe/UnsafeOutput.java:56-96 | `require(w)`, store, `position += w`: the stream gains exactly the bytes, or nothing when require fails; without a stream nothing is flushed and it fails exactly when `position + w` exceeds the maximum; with a stream it fails exactly when `w` exceeds the maximum; after a flush the old buffered bytes are in the stream and `position` is `w` (0 on failure); when the bytes already fit it succeeds in place and the bytes after them are unchanged |
| UnsafeOutputs.UnsafeOutput.WriteInt | src/com/esotericsoftware/kryo/unsafe/UnsafeOutput.java:56-60 | the stream gains the int's four-byte image, or nothing; it fails exactly when 4 more bytes cannot fit within the maximum (with a stream: when 4 exceeds it); with no flush the earlier buffered bytes are unchanged and `position` grows by 4; after a flush `position` is 4 |
| UnsafeOutputs.UnsafeOutput.WriteLong | src/com/esotericsoftware/kryo/unsafe/UnsafeOutput.java:62-66 | the stream gains the long's eight-byte image, or nothing; it fails exactly when 8 more bytes cannot fit within the maximum (with a stream: when 8 exceeds it); with no flush `position` grows by 8; after a flush `position` is 8 |
| UnsafeOutputs.UnsafeOutput.WriteFloat | src/com/esotericsoftware/kryo/unsafe/UnsafeOutput.java:68-72 | the stream gains the four bytes of the bit pattern, or nothing; it fails exactly when 4 more bytes cannot fit within the maximum (with a stream: when 4 exceeds it); with no flush `position` grows by 4; after a flush `position` is 4 |
| UnsafeOutputs.UnsafeOutput.WriteDouble | src/com/esotericsoftware/kryo/unsafe/UnsafeOutput.java:74-78 | the stream gains the eight bytes of the bit pattern, or nothing; it fails exactly when 8 more bytes cannot fit within the maximum (with a stream: when 8 exceeds it); with no flush `position` grows by 8; after a flush `position` is 8 |
| UnsafeOutputs.UnsafeOutput.WriteShort | src/com/esotericsoftware/kryo/unsafe/UnsafeOutput.java:80-84 | the stream gains the two bytes of `(short) value`, or nothing; it fails exactly when 2 more bytes cannot fit within the maximum (with a stream: when 2 exceeds it); with no flush `position` grows by 2; after a flush `position` is 2 |
| UnsafeOutputs.UnsafeOutput.WriteChar | src/com/esotericsoftware/kryo/unsafe/UnsafeOutput.java:86-90 | the stream gains the char's two bytes, or nothing; it fails exactly when 2 more bytes cannot fit within the maximum (with a stream: when 2 exceeds it); with no flush `position` grows by 2; after a flush `position` is 2 |
| UnsafeOutputs.UnsafeOutput.WriteBoolean | src/com/esotericsoftware/kryo/unsafe/UnsafeOutput.java:92-96 | the stream gains one byte, 1 for true and 0 for false, or nothing; it fails exactly when one more byte cannot fit within the maximum (with a stream: when the maximum admits no byte); with no flush the byte sits at the old `position`; after a flush `position` is 1 |
| UnsafeOutputs.UnsafeOutput.WriteBytesFrom | src/com/esotericsoftware/kryo/unsafe/UnsafeOutput.java:131-142 | the stream gains `from[offset .. offset+count]` in order, or a proper prefix of it on failure; without a stream it fails exactly when `position + count` exceeds the maximum; with a stream exactly when the bytes do not fit in the room left and the maximum admits no byte; with no flush the bytes follow the earlier buffered ones; with `count == 0` nothing changes; when the bytes already fit it succeeds without flushing, in the same array, with the bytes after them unchanged; the bytes already handed to the stream stay there, followed by any it flushes |
| UnsafeOutputs.UnsafeOutput.CopyRest | src/com/esotericsoftware/kryo/unsafe/UnsafeOutput.java:133-141 | the later passes append the remaining bytes after those already copied, or a proper prefix when a require fails; without a stream they fail exactly when the remaining bytes cannot fit within the maximum; with a stream exactly when bytes remain and the maximum admits no byte; the loop ends because each pass copies at least one byte; the bytes already handed to the stream stay there, followed by any it flushes |
| UnsafeOutputs.UnsafeOutput.CopyPass | src/com/esotericsoftware/kryo/unsafe/UnsafeOutput.java:134-140 | one later pass: the chunk is `Chunk(capacity, count)`, between 1 and `count` bytes; require room for it, then append it after the bytes copied so far; when require fails nothing is written; without a stream it fails exactly when the chunk cannot fit within the maximum; the bytes already handed to the stream stay there, followed by any it flushes |
| UnsafeOutputs.UnsafeOutput.WriteBytes | src/com/esotericsoftware/kryo/unsafe/UnsafeOutput.java:126-128 | the stream gains `bytes[offset .. offset+count]`, or a proper prefix of it on failure, with the success conditions and buffer outcome of the bulk copy; when the bytes already fit it succeeds without flushing, in the same array, with the bytes after them unchanged; the bytes already handed to the stream stay there, followed by any it flushes |
| UnsafeOutputs.UnsafeOutput.WriteCopy | src/com/esotericsoftware/kryo/unsafe/UnsafeOutput.java:131 | a typed writer's request hands exactly its bytes to the bulk copy, which succeeds exactly under the bulk copy's conditions for `count` bytes; when the `count` bytes already fit it succeeds without flushing, in the same array, with the bytes after them unchanged; the bytes already handed to the stream stay there, followed by any it flushes |
| UnsafeOutputs.UnsafeOutput.WriteInts | src/com/esotericsoftware/kryo/unsafe/UnsafeOutput.java:98-100 | the stream gains the int[]'s image, or a proper prefix of it; without a stream it fails exactly when `4 * length` more bytes cannot fit within the maximum (with a stream: when they do not fit in the room left and the maximum admits no byte); when the bytes already fit it succeeds without flushing, in the same array, with the bytes after them unchanged; the bytes already handed to the stream stay there, followed by any it flushes |
| UnsafeOutputs.UnsafeOutput.WriteLongs | src/com/esotericsoftware/kryo/unsafe/UnsafeOutput.java:102-104 | the stream gains the long[]'s image, or a proper prefix of it; without a stream it fails exactly when `8 * length` more bytes cannot fit within the maximum (with a stream: when they do not fit in the room left and the maximum admits no byte); when the bytes already fit it succeeds without flushing, in the same array, with the bytes after them unchanged; the bytes already handed to the stream stay there, followed by any it flushes |
| UnsafeOutputs.UnsafeOutput.WriteFloats | src/com/esotericsoftware/kryo/unsafe/UnsafeOutput.java:106-108 | the stream gains the float[]'s image, or a proper prefix of it; without a stream it fails exactly when `4 * length` more bytes cannot fit within the maximum (with a stream: when they do not fit in the room left and the maximum admits no byte); when the bytes already fit it succeeds without flushing, in the same array, with the bytes after them unchanged; the bytes already handed to the stream stay there, followed by any it flushes |
| UnsafeOutputs.UnsafeOutput.WriteDoubles | src/com/esotericsoftware/kryo/unsafe/UnsafeOutput.java:110-112 | the stream gains the double[]'s image, or a proper prefix of it; without a stream it fails exactly when `8 * length` more bytes cannot fit within the maximum (with a stream: when they do not fit in the room left and the maximum admits no byte); when the bytes already fit it succeeds without flushing, in the same array, with the bytes after them unchanged; the bytes already handed to the stream stay there, followed by any it flushes |
| UnsafeOutputs.UnsafeOutput.WriteShorts | src/com/esotericsoftware/kryo/unsafe/UnsafeOutput.java:114-116 | the stream gains the short[]'s image, or a proper prefix of it; without a stream it fails exactly when `2 * length` more bytes cannot fit within the maximum (with a stream: when they do not fit in the room left and the maximum admits no byte); when the bytes already fit it succeeds without flushing, in the same array, with the bytes after them unchanged; the bytes already handed to the stream stay there, followed by any it flushes |
| UnsafeOutputs.UnsafeOutput.WriteChars | src/com/esotericsoftware/kryo/unsafe/UnsafeOutput.java:118-120 | the stream gains the char[]'s image, or a proper prefix of it; without a stream it fails exactly when `2 * length` more bytes cannot fit within the maximum (with a stream: when they do not fit in the room left and the maximum admits no byte); when the bytes already fit it succeeds without flushing, in the same array, with the bytes after them unchanged; the bytes already handed to the stream stay there, followed by any it flushes |
| UnsafeOutputs.UnsafeOutput.WriteBooleansAsWritten | src/com/esotericsoftware/kryo/unsafe/UnsafeOutput.java:122-124 | as written: the stream gains the whole array's bytes and as many from beyond it, whatever `offset` and `count` are; without a stream it fails exactly when `2 * length` more bytes cannot fit within the maximum; when the bytes already fit it succeeds without flushing, in the same array, with the bytes after them unchanged; the bytes already handed to the stream stay there, followed by any it flushes |
| UnsafeOutputs.UnsafeOutput.WriteBooleans | src/com/esotericsoftware/kryo/unsafe/UnsafeOutput.java:122 | as intended: the stream gains one byte for each of the `count` elements from `offset`, or a proper prefix; without a stream it fails exactly when `count` more bytes cannot fit within the maximum; when the bytes already fit it succeeds without flushing, in the same array, with the bytes after them unchanged; the bytes already handed to the stream stay there, followed by any it flushes |
| UnsafeOutputs.UnsafeOutput.StalledPassAsWritten | src/com/esotericsoftware/kryo/unsafe/UnsafeOutput.java:137-140 | as written, on a buffer of capacity 0 with bytes left, a later pass copies nothing and leaves the whole state as it found it, so the loop never ends |

## Left out

- `sun.misc.Unsafe` address arithmetic (`byteArrayBaseOffset`, `intArrayBaseOffset`, ...) is not modelled. A source object's memory is a byte sequence starting at its array's base offset, and a typed array is the image of its elements.
- The host's native byte order cannot be known. It is the constructor parameter `nativeOrder`, fixed for the life of the output.
- Float and double values are not modelled, only their raw bit patterns. The conversion from a float to its bits is not part of this model.
- The OutputStream and its I/O are not modelled. A flush only moves the buffered bytes to the ghost sequence `flushed`.
- `Output.java` is not part of this model. `Require`, `Flush` and `SetBuffer` are stand-ins, specified by the constructor documentation. The exact growth steps and the exception messages of the real `require` are not modelled.
- A thrown `KryoException` is an `ok == false` result. Nothing after a failing `require` runs, as when the exception propagates.
- Java's 32-bit `int` arithmetic on `position`, `capacity` and `count` is not modelled. These are unbounded naturals in the model.
- UnsafeOutputs.UnsafeOutput.WriteInts: requires fewer than 2^29 elements, so that `length << 2` does not wrap. The same bound holds for WriteFloats. WriteLongs and WriteDoubles require fewer than 2^28 elements, and WriteShorts, WriteChars and WriteBooleansAsWritten fewer than 2^30. `ShiftLeft` itself models the wrap.
- CopyRequests.IntsCopy: requires fewer than 2^29 elements, for the reason above. The same bound holds for CopyRequests.FloatsCopy; CopyRequests.LongsCopy and CopyRequests.DoublesCopy require fewer than 2^28, and CopyRequests.ShortsCopy, CopyRequests.CharsCopy and CopyRequests.BooleansCopyAsWritten fewer than 2^30.
- UnsafeOutputs.UnsafeOutput.WithSize: takes `bufferSize` as a natural; the negative sizes that `Output`'s constructors reject are excluded by the types. The same holds for WithMaximum and ToStreamWithSize. `maxBufferSize` below -1, and a maximum smaller than the initial size, are excluded by preconditions.
- UnsafeOutputs.UnsafeOutput.OverArrayWithMaximum: requires `maxBufferSize >= -1` and a maximum that admits the array's length; the arguments that `Output` rejects with an exception are excluded. The same holds for UnsafeOutputs.UnsafeOutput.SetBuffer.
- UnsafeOutputs.UnsafeOutput.WriteBytes: requires `offset + count <= |bytes|`. The source performs no bounds check, and an out-of-range copy reads arbitrary memory.
- UnsafeOutputs.UnsafeOutput.WriteBytesFrom: reads its source as a value, so a source that aliases the output's own buffer is not modelled.
- The typed arrays are seq snapshots: a caller changing the array during the copy is not modelled, nor is any other concurrency.
- UnsafeOutputs.UnsafeOutput.WriteBytesFrom: the source's `while (true)` loop is split. The first pass is inline, the later passes are the loop of `CopyRest`, and each later pass is `CopyPass`. The later passes use the corrected chunk `Chunk(capacity, count) = min(max(capacity, 1), count)`, which equals the source's `min(capacity, count)` at UnsafeOutput.java:139 whenever the capacity is positive; the capacity-0 case is under "## Findings".

## Findings

| source | as written | input that shows it | evidently intended | confidence | as-written member | corrected member |
|---|---|---|---|---|---|---|
| src/com/esotericsoftware/kryo/unsafe/UnsafeOutput.java:139-140 | a later pass asks `require` for `min(capacity, count)` bytes | a buffer of capacity 0 (the uninitialized output, or one over an empty array) and `count > 0`: every pass copies 0 bytes, `require(0)` returns at once, and the loop never ends | a chunk of at least one byte, `min(max(capacity, 1), count)`, so that `require` grows the buffer or fails; it equals the source's chunk whenever the capacity is positive | not executed | UnsafeOutputs.ChunkAsWritten, UnsafeOutputs.UnsafeOutput.StalledPassAsWritten | UnsafeOutputs.Chunk, UnsafeOutputs.UnsafeOutput.CopyRest |
| src/com/esotericsoftware/kryo/unsafe/UnsafeOutput.java:122-124 | `writeBooleans(array, offset, count)` ignores `offset` and `count` and copies `array.length << 1` bytes from the first element | `[false, true]` with offset 1 and count 1 copies four bytes, `[0, 1]` and two bytes from beyond the array, where `[1]` is meant | one byte per boolean, as writeBoolean stores it, for the `count` elements from `offset`; with offset 0 and count `array.length` this is `array.length` bytes | not executed | CopyRequests.BooleansCopyAsWritten, CopyRequests.BooleansAsWrittenOverreads, UnsafeOutputs.UnsafeOutput.WriteBooleansAsWritten | CopyRequests.BooleansCopy, UnsafeOutputs.UnsafeOutput.WriteBooleans |
